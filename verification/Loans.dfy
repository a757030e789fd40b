/**
 The loan state machine with every request atomic.
 */
module Loans {
  import opened Wrappers
  import opened Collections
  import opened Schema

  datatype Error = DuplicateActive | NoCopies | InvalidBook | InvalidUser
  datatype Response = Ok | Unauthorized | Forbidden | NotFound | Unprocessable(errors: seq<Error>)

  /** The permitted parameters of an update, those that were sent. */
  datatype BookParams = BookParams(
    title: Option<string>, author: Option<string>, genre: Option<string>, isbn: Option<string>, totalCopies: Option<int>)
  datatype UserParams = UserParams(email: Option<string>, firstName: Option<Option<string>>, lastName: Option<Option<string>>)

  /**
   The requests that write books, users and borrowings, other than the creation
   of a borrowing; the overdue service; and the passing of time. Devise's own
   account cancellation and password changes are not among them.
   */
  datatype Command =
    | ReturnBook(actor: nat, loan: nat, comment: string)
    | MarkOverdue
    | CreateBook(actor: nat, book: Book)
    | UpdateBook(actor: nat, id: nat, changes: BookParams)
    | DestroyBook(actor: nat, id: nat)
    | CreateMember(actor: nat, user: User)
    | UpdateMember(actor: nat, id: nat, params: UserParams)
    | DestroyMember(actor: nat, id: nat)
    | UpdateAccount(actor: nat, params: UserParams)
    | Register(user: User)
    | Tick(ms: nat)

  datatype Event = Borrow(user: nat, book: nat) | Do(command: Command)

  const LOAN_DAYS: int := 14

  /** `set_defaults`: stamped now, due fourteen days on. */
  function NewLoan(id: nat, user: nat, book: nat, stamp: int): Borrowing {
    Borrowing(id, user, book, stamp, Day(stamp + LOAN_DAYS * MS_PER_DAY), Borrowed, None, None)
  }

  /** The two on-create validators; `total` is the count on the book record loaded earlier. */
  function CreateErrors(s: State, user: nat, book: nat, total: int): seq<Error> {
    (if ActiveCount(s, Some(user), book) > 0 then [DuplicateActive] else []) +
    (if total - ActiveCount(s, None, book) <= 0 then [NoCopies] else [])
  }

  function Insert(s: State, user: nat, book: nat, stamp: int): State {
    s.(loans := s.loans + [NewLoan(s.nextLoan, user, book, stamp)], nextLoan := s.nextLoan + 1)
  }

  /** POST /borrowings. */
  function Create(s: State, user: nat, book: nat): (State, Response) {
    if user !in s.users then (s, Unauthorized)
    else if book !in s.books then (s, NotFound)
    else
      var errors := CreateErrors(s, user, book, s.books[book].totalCopies);
      if errors != [] then (s, Unprocessable(errors)) else (Insert(s, user, book, s.now), Ok)
  }

  predicate Blank(text: string) { forall c | c in text :: c in {' ', '\t', '\n', '\r', '\U{0B}', '\U{0C}'} }

  function Presence(text: string): Option<string> { if Blank(text) then None else Some(text) }

  /** `return!` on row `id`. */
  function ReturnRow(id: nat, at: int, comment: string): Borrowing -> Borrowing {
    (r: Borrowing) =>
      if r.id == id then r.(status := Returned, returnedAt := Some(at), comment := Presence(comment)) else r
  }

  predicate PastDue(r: Borrowing, today: int) { r.status == Borrowed && r.dueDate < today }

  function PastDueOn(today: int): Borrowing -> bool { (r: Borrowing) => PastDue(r, today) }

  /** The bulk UPDATE of the overdue service. */
  function MarkRow(today: int): Borrowing -> Borrowing {
    (r: Borrowing) => if PastDue(r, today) then r.(status := Overdue) else r
  }

  function Mark(loans: seq<Borrowing>, today: int): seq<Borrowing> { Map(loans, MarkRow(today)) }

  function NotOfBook(id: nat): Borrowing -> bool { (r: Borrowing) => r.bookId != id }
  function NotOfUser(id: nat): Borrowing -> bool { (r: Borrowing) => r.userId != id }

  predicate HasLoan(s: State, id: nat) { exists r | r in s.loans :: r.id == id }

  predicate IsbnTaken(books: map<nat, Book>, isbn: string, except: Option<nat>) {
    exists b | b in books :: books[b].isbn == isbn && except != Some(b)
  }

  /** The Book validations: presence, a unique ISBN, a non-negative total. */
  predicate ValidBook(books: map<nat, Book>, book: Book, except: Option<nat>) {
    && !Blank(book.title) && !Blank(book.author) && !Blank(book.genre) && !Blank(book.isbn)
    && !IsbnTaken(books, book.isbn, except)
    && book.totalCopies >= 0
  }

  predicate EmailTaken(users: map<nat, User>, email: string, except: Option<nat>) {
    exists u | u in users :: users[u].email == email && except != Some(u)
  }

  function Given<T>(param: Option<T>, current: T): T { if param.Some? then param.value else current }

  /** The record after an assignment: what was sent replaces, the rest stays. */
  function AssignBook(book: Book, p: BookParams): Book {
    Book(Given(p.title, book.title), Given(p.author, book.author), Given(p.genre, book.genre),
         Given(p.isbn, book.isbn), Given(p.totalCopies, book.totalCopies))
  }

  /** The role is not among the parameters, so it stays. */
  function AssignUser(user: User, p: UserParams): User {
    user.(email := Given(p.email, user.email), firstName := Given(p.firstName, user.firstName),
          lastName := Given(p.lastName, user.lastName))
  }

  predicate IsMember(s: State, id: nat) { id in s.users && s.users[id].role == Member }

  /** The answer to a request that does not reach its effect. */
  function Refusal(s: State, c: Command): Option<Response> {
    match c
    case ReturnBook(actor, loan, _) =>
      if actor !in s.users then Some(Unauthorized)
      else if !HasLoan(s, loan) then Some(NotFound)
      else if !IsLibrarian(s, actor) then Some(Forbidden) else None
    case CreateBook(actor, book) =>
      if actor !in s.users then Some(Unauthorized)
      else if !IsLibrarian(s, actor) then Some(Forbidden)
      else if !ValidBook(s.books, book, None) then Some(Unprocessable([InvalidBook])) else None
    case UpdateBook(actor, id, params) =>
      if actor !in s.users then Some(Unauthorized)
      else if !IsLibrarian(s, actor) then Some(Forbidden)
      else if id !in s.books then Some(NotFound)
      else if !ValidBook(s.books, AssignBook(s.books[id], params), Some(id)) then Some(Unprocessable([InvalidBook])) else None
    case DestroyBook(actor, id) =>
      if actor !in s.users then Some(Unauthorized)
      else if !IsLibrarian(s, actor) then Some(Forbidden)
      else if id !in s.books then Some(NotFound) else None
    case CreateMember(actor, user) =>
      if actor !in s.users then Some(Unauthorized)
      else if !IsLibrarian(s, actor) then Some(Forbidden)
      else if EmailTaken(s.users, user.email, None) then Some(Unprocessable([InvalidUser])) else None
    case UpdateMember(actor, id, params) =>
      if actor !in s.users then Some(Unauthorized)
      else if !IsLibrarian(s, actor) then Some(Forbidden)
      else if !IsMember(s, id) then Some(NotFound)
      else if EmailTaken(s.users, AssignUser(s.users[id], params).email, Some(id)) then Some(Unprocessable([InvalidUser])) else None
    case UpdateAccount(actor, params) =>
      if actor !in s.users then Some(Unauthorized)
      else if EmailTaken(s.users, AssignUser(s.users[actor], params).email, Some(actor)) then Some(Unprocessable([InvalidUser]))
      else None
    case Register(user) =>
      if EmailTaken(s.users, user.email, None) then Some(Unprocessable([InvalidUser])) else None
    case DestroyMember(actor, id) =>
      if actor !in s.users then Some(Unauthorized)
      else if !IsLibrarian(s, actor) then Some(Forbidden)
      else if !IsMember(s, id) then Some(NotFound) else None
    case MarkOverdue => None
    case Tick(_) => None
  }

  function AddUser(s: State, user: User): State {
    s.(users := s.users[s.nextUser := user], nextUser := s.nextUser + 1)
  }

  function WriteUser(s: State, id: nat, params: UserParams): State
    requires id in s.users
  {
    s.(users := s.users[id := AssignUser(s.users[id], params)])
  }

  function Effect(s: State, c: Command): State
    requires Refusal(s, c) == None
  {
    match c
    case ReturnBook(_, loan, comment) => s.(loans := Map(s.loans, ReturnRow(loan, s.now, comment)))
    case MarkOverdue => s.(loans := Mark(s.loans, Day(s.now)))
    case CreateBook(_, book) => s.(books := s.books[s.nextBook := book], nextBook := s.nextBook + 1)
    case UpdateBook(_, id, params) => s.(books := s.books[id := AssignBook(s.books[id], params)])
    case DestroyBook(_, id) => s.(books := s.books - {id}, loans := Filter(s.loans, NotOfBook(id)))
    case CreateMember(_, user) => AddUser(s, user.(role := Member))
    case UpdateMember(_, id, params) => WriteUser(s, id, params)
    case UpdateAccount(actor, params) => WriteUser(s, actor, params)
    case DestroyMember(_, id) => s.(users := s.users - {id}, loans := Filter(s.loans, NotOfUser(id)))
    case Register(user) => AddUser(s, user)
    case Tick(ms) => s.(now := s.now + ms)
  }

  function Execute(s: State, c: Command): (State, Response) {
    match Refusal(s, c)
    case Some(response) => (s, response)
    case None => (Effect(s, c), Ok)
  }

  function Step(s: State, e: Event): (State, Response) {
    match e
    case Borrow(user, book) => Create(s, user, book)
    case Do(c) => Execute(s, c)
  }

  /** The database after a run of requests from an empty one. */
  function Run(t0: int, es: seq<Event>): State {
    if es == [] then EmptyDatabase(t0) else Step(Run(t0, es[..|es| - 1]), es[|es| - 1]).0
  }

  lemma CreateKeepsWellFormed(s: State, user: nat, book: nat)
    requires WellFormed(s)
    ensures WellFormed(Create(s, user, book).0)
  {
  }

  predicate KeepsKeys(r: Borrowing, r': Borrowing) { r'.id == r.id && r'.userId == r.userId && r'.bookId == r.bookId }

  /** An UPDATE of the borrowings that leaves keys alone and stamps returned rows. */
  lemma UpdateKeepsWellFormed(s: State, f: Borrowing -> Borrowing)
    requires WellFormed(s)
    requires forall r | r in s.loans :: KeepsKeys(r, f(r)) && (f(r).status == Returned <==> f(r).returnedAt.Some?)
    ensures WellFormed(s.(loans := Map(s.loans, f)))
  {
    var after := Map(s.loans, f);
    assert forall i | 0 <= i < |s.loans| :: s.loans[i] in s.loans && KeepsKeys(s.loans[i], after[i]);
  }

  lemma {:induction false} DestroyKeepsWellFormed(s: State, keep: Borrowing -> bool, books: map<nat, Book>, users: map<nat, User>)
    requires WellFormed(s)
    requires forall b | b in books :: b in s.books && books[b] == s.books[b]
    requires forall u | u in users :: u in s.users && users[u] == s.users[u]
    requires forall r | r in s.loans && keep(r) :: r.bookId in books && r.userId in users
    ensures WellFormed(s.(loans := Filter(s.loans, keep), books := books, users := users))
  {
    FilterKeepsIds(s.loans, keep);
  }

  lemma SaveBookKeepsIsbns(books: map<nat, Book>, id: nat, book: Book)
    requires UniqueIsbns(books) && !IsbnTaken(books, book.isbn, Some(id))
    ensures UniqueIsbns(books[id := book])
  {
  }

  lemma SaveUserKeepsEmails(users: map<nat, User>, id: nat, user: User)
    requires UniqueEmails(users) && !EmailTaken(users, user.email, Some(id))
    ensures UniqueEmails(users[id := user])
  {
  }

  /** Every request keeps the keys, the foreign keys, the unique ISBNs and e-mails and the return stamps. */
  lemma {:induction false} ExecuteKeepsWellFormed(s: State, c: Command)
    requires WellFormed(s)
    ensures WellFormed(Execute(s, c).0)
  {
    if Refusal(s, c) == None {
      match c
      case ReturnBook(_, id, comment) => UpdateKeepsWellFormed(s, ReturnRow(id, s.now, comment));
      case MarkOverdue => UpdateKeepsWellFormed(s, MarkRow(Day(s.now)));
      case CreateBook(_, book) => SaveBookKeepsIsbns(s.books, s.nextBook, book);
      case UpdateBook(_, id, params) => SaveBookKeepsIsbns(s.books, id, AssignBook(s.books[id], params));
      case CreateMember(_, user) => SaveUserKeepsEmails(s.users, s.nextUser, user.(role := Member));
      case UpdateMember(_, id, params) => SaveUserKeepsEmails(s.users, id, AssignUser(s.users[id], params));
      case UpdateAccount(id, params) => SaveUserKeepsEmails(s.users, id, AssignUser(s.users[id], params));
      case Register(user) => SaveUserKeepsEmails(s.users, s.nextUser, user);
      case DestroyBook(_, id) => DestroyKeepsWellFormed(s, NotOfBook(id), s.books - {id}, s.users);
      case DestroyMember(_, id) => DestroyKeepsWellFormed(s, NotOfUser(id), s.books, s.users - {id});
      case _ =>
    }
  }

  /** After any run every borrowing refers to an existing user and book. */
  lemma {:induction false} RunIsWellFormed(t0: int, es: seq<Event>)
    ensures WellFormed(Run(t0, es))
  {
    if es == [] {
    } else {
      var s, e := Run(t0, es[..|es| - 1]), es[|es| - 1];
      RunIsWellFormed(t0, es[..|es| - 1]);
      match e
      case Borrow(user, book) => CreateKeepsWellFormed(s, user, book);
      case Do(c) => ExecuteKeepsWellFormed(s, c);
    }
  }

  /** Only creation makes a loan active: no other request raises an active count. */
  lemma CommandsNeverActivate(s: State, c: Command, user: Option<nat>, book: nat)
    ensures ActiveCount(Execute(s, c).0, user, book) <= ActiveCount(s, user, book)
  {
    var p := ActiveOf(user, book);
    match c
    case ReturnBook(_, loan, comment) => CountMapAtMost(s.loans, ReturnRow(loan, s.now, comment), p);
    case MarkOverdue => CountMapAtMost(s.loans, MarkRow(Day(s.now)), p);
    case DestroyBook(_, id) => CountFilterAtMost(s.loans, NotOfBook(id), p);
    case DestroyMember(_, id) => CountFilterAtMost(s.loans, NotOfUser(id), p);
    case _ =>
  }

  lemma InsertCounts(s: State, user: nat, book: nat, stamp: int, who: Option<nat>, what: nat)
    ensures ActiveCount(Insert(s, user, book, stamp), who, what) ==
            ActiveCount(s, who, what) + if book == what && (who.Some? ==> who.value == user) then 1 else 0
  {
    CountAppend(s.loans, NewLoan(s.nextLoan, user, book, stamp), ActiveOf(who, what));
  }
}
