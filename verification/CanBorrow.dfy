/**
 The `with_can_borrow_for` query, operator by operator, and what its flag means.
 */
module CanBorrow {
  import opened Wrappers
  import opened Collections
  import opened Schema
  import opened Loans
  import opened Relational

  datatype Row = Row(id: nat, book: Book)

  /** Some order in which the books table can be read: each book once. */
  ghost predicate IsScan(scan: seq<Row>, books: map<nat, Book>) {
    && (forall i, j | 0 <= i < j < |scan| :: scan[i].id != scan[j].id)
    && (forall r | r in scan :: r.id in books && books[r.id] == r.book)
    && (forall b | b in books :: Row(b, books[b]) in scan)
  }

  function AnyActive(): Borrowing -> bool { (r: Borrowing) => Active(r) }
  function ActiveBy(user: nat): Borrowing -> bool { (r: Borrowing) => r.userId == user && Active(r) }
  function BookId(): Borrowing -> nat { (r: Borrowing) => r.bookId }

  /** SELECT book_id, COUNT(*) ... GROUP BY book_id. */
  function ActiveGroups(loans: seq<Borrowing>): seq<(nat, nat)> {
    GroupCount(Map(Filter(loans, AnyActive()), BookId()))
  }

  /** SELECT DISTINCT book_id ... of one user. */
  function ActiveBooksOf(loans: seq<Borrowing>, user: nat): seq<nat> {
    SelectDistinct(Map(Filter(loans, ActiveBy(user)), BookId()))
  }

  function OnGroup(): (Row, (nat, nat)) -> bool { (r: Row, g: (nat, nat)) => g.0 == r.id }
  function OnUserBook(): ((Row, Option<(nat, nat)>), nat) -> bool { (r: (Row, Option<(nat, nat)>), b: nat) => b == r.0.id }

  function Coalesce(group: Option<(nat, nat)>): nat { if group.Some? then group.value.1 else 0 }

  /** The SELECT list: the book and the CASE expression. */
  function Flag(member: bool): (((Row, Option<(nat, nat)>), Option<nat>)) -> (Row, bool) {
    (j: ((Row, Option<(nat, nat)>), Option<nat>)) =>
      (j.0.0, member && Coalesce(j.0.1) < j.0.0.book.totalCopies && j.1 == None)
  }

  /** The query; `user` is the requester and whether they are a member, none when nobody is signed in. */
  function WithCanBorrowFor(scan: seq<Row>, loans: seq<Borrowing>, user: Option<(nat, bool)>): seq<(Row, bool)> {
    var userId := if user.Some? then user.value.0 else 0;
    var member := user.Some? && user.value.1;
    var joined := LeftJoin(scan, ActiveGroups(loans), OnGroup());
    Map(LeftJoin(joined, ActiveBooksOf(loans, userId), OnUserBook()), Flag(member))
  }

  lemma ActiveGroupsCount(loans: seq<Borrowing>, book: nat)
    ensures OneGroupPerKey(ActiveGroups(loans))
    ensures Lookup(ActiveGroups(loans), book) == Count(loans, ActiveOf(None, book))
  {
    var kept := Filter(loans, AnyActive());
    GroupCountCounts(Map(kept, BookId()));
    var onBook := (r: Borrowing) => r.bookId == book;
    CountMap(kept, BookId(), EqualTo(book), onBook);
    CountFilter(loans, AnyActive(), onBook, ActiveOf(None, book));
  }

  lemma ActiveBooksAre(loans: seq<Borrowing>, user: nat, book: nat)
    ensures Distinct(ActiveBooksOf(loans, user))
    ensures book in ActiveBooksOf(loans, user) <==> Count(loans, ActiveOf(Some(user), book)) > 0
  {
    var kept := Filter(loans, ActiveBy(user));
    var ids := Map(kept, BookId());
    SelectDistinctKeepsOne(ids);
    CountZero(loans, ActiveOf(Some(user), book));
    if book in ids {
      var i :| 0 <= i < |ids| && ids[i] == book;
      assert kept[i] in kept && ActiveOf(Some(user), book)(kept[i]);
    }
    if r :| r in loans && ActiveOf(Some(user), book)(r) {
      assert r in kept;
      var i :| 0 <= i < |kept| && kept[i] == r;
      assert ids[i] == book;
    }
  }

  /** The rule, one book and one user at a time. */
  predicate MayBorrow(s: State, user: nat, book: nat) {
    IsMember(s, user) && AvailableCopies(s, book) > 0 && ActiveCount(s, Some(user), book) == 0
  }

  /**
   One row per book, in the order the table was read, and each flag is the rule
   for that book: the bulk query is the one-at-a-time checks done at once.
   */
  lemma QueryIsTheRule(s: State, scan: seq<Row>, user: nat)
    requires IsScan(scan, s.books)
    ensures var rows := WithCanBorrowFor(scan, s.loans, Some((user, IsMember(s, user))));
      && |rows| == |scan| == |s.books|
      && forall i | 0 <= i < |scan| :: rows[i] == (scan[i], MayBorrow(s, user, scan[i].id))
  {
    ScanSize(scan, s.books);
    QueryRows(scan, s.loans, Some((user, IsMember(s, user))));
  }

  /** Nobody signed in: every book is listed, none is offered. */
  lemma QueryWithoutUser(s: State, scan: seq<Row>)
    requires IsScan(scan, s.books)
    ensures var rows := WithCanBorrowFor(scan, s.loans, None);
      |rows| == |scan| && forall i | 0 <= i < |scan| :: rows[i] == (scan[i], false)
  {
    QueryRows(scan, s.loans, None);
  }

  /** The two joined columns of one row: the book's active loans, and whether the user has one. */
  lemma QueryRow(row: ((Row, Option<(nat, nat)>), Option<nat>), first: (Row, Option<(nat, nat)>), book: Row, loans: seq<Borrowing>, user: nat)
    requires JoinedRow(first, book, ActiveGroups(loans), OnGroup())
    requires JoinedRow(row, first, ActiveBooksOf(loans, user), OnUserBook())
    ensures row.0.0 == book
    ensures Coalesce(row.0.1) == Count(loans, ActiveOf(None, book.id))
    ensures row.1 == None <==> Count(loans, ActiveOf(Some(user), book.id)) == 0
  {
    ActiveGroupsCount(loans, book.id);
    LookupFinds(ActiveGroups(loans), book.id);
    ActiveBooksAre(loans, user, book.id);
  }

  lemma QueryRows(scan: seq<Row>, loans: seq<Borrowing>, user: Option<(nat, bool)>)
    ensures var rows := WithCanBorrowFor(scan, loans, user);
      && |rows| == |scan|
      && forall i | 0 <= i < |scan| :: rows[i] == (scan[i],
           && user.Some? && user.value.1
           && Count(loans, ActiveOf(None, scan[i].id)) < scan[i].book.totalCopies
           && Count(loans, ActiveOf(Some(user.value.0), scan[i].id)) == 0)
  {
    var userId := if user.Some? then user.value.0 else 0;
    var groups, mine := ActiveGroups(loans), ActiveBooksOf(loans, userId);
    ActiveGroupsCount(loans, 0);
    ActiveBooksAre(loans, userId, 0);
    LeftJoinKeepsRows(scan, groups, OnGroup());
    var joined := LeftJoin(scan, groups, OnGroup());
    LeftJoinKeepsRows(joined, mine, OnUserBook());
    var both := LeftJoin(joined, mine, OnUserBook());
    forall i | 0 <= i < |scan|
      ensures Coalesce(both[i].0.1) == Count(loans, ActiveOf(None, scan[i].id))
      ensures both[i].0.0 == scan[i] && (both[i].1 == None <==> Count(loans, ActiveOf(Some(userId), scan[i].id)) == 0)
    {
      QueryRow(both[i], joined[i], scan[i], loans, userId);
    }
  }

  function RowId(): Row -> nat { (r: Row) => r.id }

  lemma ScanSize(scan: seq<Row>, books: map<nat, Book>)
    requires IsScan(scan, books)
    ensures |scan| == |books|
  {
    var ids := Map(scan, RowId());
    forall b: nat ensures b in ids <==> b in books.Keys {
      if b in books {
        var i :| 0 <= i < |scan| && scan[i] == Row(b, books[b]);
        assert ids[i] == b;
      }
    }
    DistinctSize(ids, books.Keys);
  }

  // The flag and the request it announces

  /** For an existing book the flag foretells the answer for every user but a librarian whose request would be accepted. */
  lemma FlagForetellsCreate(s: State, scan: seq<Row>, user: nat, i: nat)
    requires IsScan(scan, s.books) && i < |scan| && user in s.users
    ensures var rows := WithCanBorrowFor(scan, s.loans, Some((user, IsMember(s, user))));
      && i < |rows|
      && (IsMember(s, user) ==> (rows[i].1 <==> Create(s, user, scan[i].id).1 == Ok))
      && (rows[i].1 != (Create(s, user, scan[i].id).1 == Ok) <==>
          IsLibrarian(s, user) && AvailableCopies(s, scan[i].id) > 0 && ActiveCount(s, Some(user), scan[i].id) == 0)
  {
    QueryIsTheRule(s, scan, user);
    assert scan[i] in scan;
  }

  /** Requests that never take an offer away from a pair they leave in place. */
  predicate Benign(c: Command, user: nat, book: nat) {
    c.ReturnBook? || c.MarkOverdue? || (c.DestroyBook? && c.id != book) || (c.DestroyMember? && c.id != user)
  }

  /** Returns, markings and the removal of others never turn an offer down. */
  lemma OffersSurvive(s: State, c: Command, user: nat, book: nat)
    requires Benign(c, user, book) && book in s.books && MayBorrow(s, user, book)
    ensures MayBorrow(Execute(s, c).0, user, book) && book in Execute(s, c).0.books
  {
    CommandsNeverActivate(s, c, None, book);
    CommandsNeverActivate(s, c, Some(user), book);
  }
}
