/**
 The requests as the application performs them: fields updated in place, each
 method proved to take the step the state machine defines.
 */
module Database {
  import opened Wrappers
  import opened Collections
  import opened Schema
  import opened Loans
  import opened Responses
  import Histories

  class Library {
    var books: map<nat, Book>
    var users: map<nat, User>
    var loans: seq<Borrowing>
    var nextBook: nat
    var nextUser: nat
    var nextLoan: nat
    var now: int

    function View(): State
      reads this
    {
      State(books, users, loans, nextBook, nextUser, nextLoan, now)
    }

    ghost predicate Valid()
      reads this
    {
      WellFormed(View())
    }

    constructor (t0: int)
      ensures Valid() && View() == EmptyDatabase(t0)
    {
      books, users, loans := map[], map[], [];
      nextBook, nextUser, nextLoan, now := 0, 0, 0, t0;
    }

    /** POST /borrowings: load the book, fill in defaults, collect the validators' errors, insert. */
    method CreateBorrowing(user: nat, bookId: nat) returns (response: Response)
      requires Valid()
      modifies this
      ensures Valid() && (View(), response) == Create(old(View()), user, bookId)
      // the answer, the duplicate reported before the missing copies
      ensures response == Unauthorized <==> user !in old(users)
      ensures response == NotFound <==> user in old(users) && bookId !in old(books)
      ensures user in old(users) && bookId in old(books) ==>
        var problems := CreateProblems(old(loans), user, bookId, old(books)[bookId].totalCopies);
        response == if problems == [] then Ok else Unprocessable(problems)
      // one row more, borrowed now and due in 14 days; nothing at all when refused
      ensures response == Ok ==>
        && |loans| == |old(loans)| + 1 && loans[..|old(loans)|] == old(loans)
        && var r := loans[|old(loans)|];
           && r.id == old(nextLoan) && r.userId == user && r.bookId == bookId
           && r.borrowedAt == old(now) && r.dueDate == Day(old(now)) + 14
           && r.status == Borrowed && r.returnedAt == None && r.comment == None
      ensures books == old(books) && users == old(users) && now == old(now)
      ensures response != Ok ==> View() == old(View())
    {
      CreateKeepsWellFormed(View(), user, bookId);
      CreateAnswered(View(), user, bookId);
      if user !in users {
        return Unauthorized;
      }
      if bookId !in books {
        return NotFound;
      }
      var book := books[bookId];
      var borrowedAt := now;
      var dueDate := Day(now + LOAN_DAYS * MS_PER_DAY);
      var errors := [];
      if Count(loans, ActiveOf(Some(user), bookId)) > 0 {
        errors := errors + [DuplicateActive];
      }
      var available := book.totalCopies - Count(loans, ActiveOf(None, bookId));
      if available <= 0 {
        errors := errors + [NoCopies];
      }
      assert errors == CreateErrors(View(), user, bookId, book.totalCopies);
      if errors != [] {
        return Unprocessable(errors);
      }
      loans := loans + [Borrowing(nextLoan, user, bookId, borrowedAt, dueDate, Borrowed, None, None)];
      nextLoan := nextLoan + 1;
      return Ok;
    }

    /** POST /borrowings/:id/return_book: find the row, check the role, write the row. */
    method ReturnBorrowing(actor: nat, id: nat, comment: string) returns (response: Response)
      requires Valid()
      modifies this
      ensures Valid() && (View(), response) == Execute(old(View()), ReturnBook(actor, id, comment))
      // the row is looked up before the role is checked; only librarians return
      ensures response == Unauthorized <==> actor !in old(users)
      ensures response == NotFound <==> actor in old(users) && forall r | r in old(loans) :: r.id != id
      ensures response == Forbidden <==>
        actor in old(users) && old(users)[actor].role != Librarian && exists r | r in old(loans) :: r.id == id
      ensures response == Ok <==>
        actor in old(users) && old(users)[actor].role == Librarian && exists r | r in old(loans) :: r.id == id
      // that row is stamped, every other row, book and user stays
      ensures response == Ok ==> |loans| == |old(loans)| && forall i | 0 <= i < |loans| ::
        loans[i] == if old(loans)[i].id != id then old(loans)[i] else
          old(loans)[i].(status := Returned, returnedAt := Some(old(now)), comment := if Blank(comment) then None else Some(comment))
      ensures books == old(books) && users == old(users)
      ensures response != Ok ==> View() == old(View())
    {
      ReturnAnswered(View(), actor, id, comment);
      ExecuteKeepsWellFormed(View(), ReturnBook(actor, id, comment));
      if actor !in users {
        return Unauthorized;
      }
      var row := FindLoan(id);
      if row == |loans| {
        return NotFound;
      }
      if users[actor].role != Librarian {
        return Forbidden;
      }
      ghost var before := loans;
      loans := loans[row := loans[row].(status := Returned, returnedAt := Some(now), comment := Presence(comment))];
      assert loans == Map(before, ReturnRow(id, now, comment));
      return Ok;
    }

    /** The position of a row, the table's length when there is none. */
    method FindLoan(id: nat) returns (row: nat)
      ensures row <= |loans|
      ensures row < |loans| ==> loans[row].id == id
      ensures row == |loans| <==> !HasLoan(View(), id)
    {
      row := 0;
      while row < |loans|
        invariant row <= |loans|
        invariant forall i | 0 <= i < row :: loans[i].id != id
      {
        if loans[row].id == id {
          assert loans[row] in loans;
          return;
        }
        row := row + 1;
      }
    }

    /**
     The overdue service. Its relation is re-evaluated at every use, so by the
     time the notifications go out no row satisfies it any more.
     */
    method MarkOverdueBooks() returns (count: nat, notified: seq<nat>)
      requires Valid()
      modifies this
      ensures Valid() && View() == Execute(old(View()), MarkOverdue).0
      ensures count == Count(old(loans), PastDueOn(Day(now)))
      ensures OnlyMarked(old(loans), loans, Day(now)) && books == old(books) && users == old(users)
      ensures notified == Histories.NotifiedIds(old(loans), Day(now)) == []
    {
      ExecuteKeepsWellFormed(View(), MarkOverdue);
      MarkingAnswered(View());
      var today := Day(now);
      notified := [];
      Histories.NothingLeftToMark(loans, today);
      if Filter(loans, PastDueOn(today)) == [] {
        FilterLength(loans, PastDueOn(today));
        NothingPastDue(loans, today);
        return 0, [];
      }
      count := |Filter(loans, PastDueOn(today))|;
      FilterLength(loans, PastDueOn(today));
      loans := Mark(loans, today);
      if count > 0 {
        notified := SendOverdueNotifications(today);
      }
    }

    /** The notification loop; returns the borrowings it logged. */
    method SendOverdueNotifications(today: int) returns (logged: seq<nat>)
      ensures |logged| == |Filter(loans, PastDueOn(today))|
      ensures forall i | 0 <= i < |logged| :: logged[i] == Filter(loans, PastDueOn(today))[i].id
    {
      var relation := Filter(loans, PastDueOn(today));
      logged := [];
      while |logged| < |relation|
        invariant |logged| <= |relation|
        invariant forall i | 0 <= i < |logged| :: logged[i] == relation[i].id
      {
        logged := logged + [relation[|logged|].id];
      }
    }

    /** PATCH /books/:id: assign the attributes sent, validate, save. */
    method ChangeBook(actor: nat, id: nat, params: BookParams) returns (response: Response)
      requires Valid()
      modifies this
      ensures Valid() && (View(), response) == Execute(old(View()), UpdateBook(actor, id, params))
      // refused for the role, a missing book or an unacceptable record; loans, even more of them than copies, play no part
      ensures LibrariansOnly(old(users), actor, response)
      ensures response == NotFound <==> Staff(old(users), actor) && id !in old(books)
      ensures Staff(old(users), actor) && id in old(books) ==>
        exists book :: BookWritten(book, params, old(books)[id])
          && if BookAccepted(old(books), book, id) then response == Ok && books == old(books)[id := book]
             else response == Unprocessable([InvalidBook])
      ensures loans == old(loans) && users == old(users)
      ensures response != Ok ==> View() == old(View())
    {
      BookUpdated(View(), actor, id, params);
      ExecuteKeepsWellFormed(View(), UpdateBook(actor, id, params));
      if actor !in users {
        return Unauthorized;
      }
      if users[actor].role != Librarian {
        return Forbidden;
      }
      if id !in books {
        return NotFound;
      }
      var book := books[id];
      if params.title.Some? {
        book := book.(title := params.title.value);
      }
      if params.author.Some? {
        book := book.(author := params.author.value);
      }
      if params.genre.Some? {
        book := book.(genre := params.genre.value);
      }
      if params.isbn.Some? {
        book := book.(isbn := params.isbn.value);
      }
      if params.totalCopies.Some? {
        book := book.(totalCopies := params.totalCopies.value);
      }
      if !ValidBook(books, book, Some(id)) {
        return Unprocessable([InvalidBook]);
      }
      books := books[id := book];
      return Ok;
    }

    /** DELETE /books/:id: the borrowings go first, then the book. */
    method RemoveBook(actor: nat, id: nat) returns (response: Response)
      requires Valid()
      modifies this
      ensures Valid() && (View(), response) == Execute(old(View()), DestroyBook(actor, id))
      ensures LibrariansOnly(old(users), actor, response)
      ensures response == NotFound <==> Staff(old(users), actor) && id !in old(books)
      ensures response == Ok <==> Staff(old(users), actor) && id in old(books)
      // the book and exactly its borrowings are gone
      ensures response == Ok ==> forall r :: r in loans <==> r in old(loans) && r.bookId != id
      ensures response == Ok ==> books == old(books) - {id} && users == old(users)
      ensures response != Ok ==> View() == old(View())
    {
      ExecuteKeepsWellFormed(View(), DestroyBook(actor, id));
      BookRemoved(View(), actor, id);
      if actor !in users {
        return Unauthorized;
      }
      if users[actor].role != Librarian {
        return Forbidden;
      }
      if id !in books {
        return NotFound;
      }
      loans := Filter(loans, NotOfBook(id));
      books := books - {id};
      return Ok;
    }

    /** PATCH /members/:id: only members are found, and the role is not among the written attributes. */
    method ChangeMember(actor: nat, id: nat, params: UserParams) returns (response: Response)
      requires Valid()
      modifies this
      ensures Valid() && (View(), response) == Execute(old(View()), UpdateMember(actor, id, params))
      ensures LibrariansOnly(old(users), actor, response)
      ensures response == NotFound <==> Staff(old(users), actor) && !MemberExists(old(users), id)
      ensures Staff(old(users), actor) && MemberExists(old(users), id) ==>
        exists user :: UserWritten(user, params, old(users)[id])
          && if EmailFree(old(users), user.email, id) then response == Ok && users == old(users)[id := user]
             else response == Unprocessable([InvalidUser])
      ensures books == old(books) && loans == old(loans)
      ensures response != Ok ==> View() == old(View())
    {
      ExecuteKeepsWellFormed(View(), UpdateMember(actor, id, params));
      MemberUpdated(View(), actor, id, params);
      if actor !in users {
        return Unauthorized;
      }
      if users[actor].role != Librarian {
        return Forbidden;
      }
      if id !in users || users[id].role != Member {
        return NotFound;
      }
      var user := users[id];
      if params.email.Some? {
        user := user.(email := params.email.value);
      }
      if params.firstName.Some? {
        user := user.(firstName := params.firstName.value);
      }
      if params.lastName.Some? {
        user := user.(lastName := params.lastName.value);
      }
      if EmailTaken(users, user.email, Some(id)) {
        return Unprocessable([InvalidUser]);
      }
      users := users[id := user];
      return Ok;
    }

    /** DELETE /members/:id: only members are found; their borrowings go with them. */
    method RemoveMember(actor: nat, id: nat) returns (response: Response)
      requires Valid()
      modifies this
      ensures Valid() && (View(), response) == Execute(old(View()), DestroyMember(actor, id))
      ensures LibrariansOnly(old(users), actor, response)
      ensures response == NotFound <==> Staff(old(users), actor) && !MemberExists(old(users), id)
      ensures response == Ok <==> Staff(old(users), actor) && MemberExists(old(users), id)
      // the member and exactly their borrowings are gone
      ensures response == Ok ==> forall r :: r in loans <==> r in old(loans) && r.userId != id
      ensures response == Ok ==> users == old(users) - {id} && books == old(books)
      ensures response != Ok ==> View() == old(View())
    {
      ExecuteKeepsWellFormed(View(), DestroyMember(actor, id));
      MemberRemoved(View(), actor, id);
      if actor !in users {
        return Unauthorized;
      }
      if users[actor].role != Librarian {
        return Forbidden;
      }
      if id !in users || users[id].role != Member {
        return NotFound;
      }
      loans := Filter(loans, NotOfUser(id));
      users := users - {id};
      return Ok;
    }
  }

  lemma NothingPastDue(loans: seq<Borrowing>, today: int)
    requires Filter(loans, PastDueOn(today)) == []
    ensures Mark(loans, today) == loans
  {
    FilterLength(loans, PastDueOn(today));
    CountZero(loans, PastDueOn(today));
  }
}
