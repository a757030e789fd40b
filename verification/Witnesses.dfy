/**
 Concrete runs: the inputs on which promises of the documentation fail.
 */
module Witnesses {
  import opened Wrappers
  import opened Collections
  import opened Schema
  import opened Loans
  import opened Interleaving
  import opened AtomicRuns
  import opened Attainment
  import Histories
  import Traces
  import CanBorrow

  lemma RunExtend(t0: int, es: seq<Event>, e: Event)
    ensures Run(t0, es + [e]) == Step(Run(t0, es), e).0
  {
    assert (es + [e])[..|es + [e]| - 1] == es;
  }

  function Hired(t0: int): State { EmptyDatabase(t0).(users := map[0 := Staff()], nextUser := 1) }

  lemma BookBought(t0: int)
    ensures Execute(Hired(t0), CreateBook(0, Title(1))).0 == OneBook(t0, 1)
  {
    TitleIsValid(1);
    assert Refusal(Hired(t0), CreateBook(0, Title(1))) == None;
  }

  /** One librarian (0) and one book (0) with one copy. */
  lemma OneBookRun(t0: int) returns (es: seq<Event>)
    ensures Run(t0, es) == OneBook(t0, 1)
  {
    var hire, buy := Do(Register(Staff())), Do(CreateBook(0, Title(1)));
    RunExtend(t0, [], hire);
    assert Run(t0, [] + [hire]) == Hired(t0);
    BookBought(t0);
    RunExtend(t0, [] + [hire], buy);
    es := [] + [hire] + [buy];
  }

  /** The librarian who is shown the book as not available, asks for it and gets it. */
  lemma LibrarianShownFalseAndAccepted(t0: int)
    ensures exists es :: var s := Run(t0, es);
      && CanBorrow.IsScan([CanBorrow.Row(0, Title(1))], s.books)
      && CanBorrow.WithCanBorrowFor([CanBorrow.Row(0, Title(1))], s.loans, Some((0, IsMember(s, 0)))) == [(CanBorrow.Row(0, Title(1)), false)]
      && Create(s, 0, 0).1 == Ok
  {
    var es := OneBookRun(t0);
    var s, scan := OneBook(t0, 1), [CanBorrow.Row(0, Title(1))];
    assert scan[0] in scan;
    CanBorrow.QueryIsTheRule(s, scan, 0);
    assert CreateErrors(s, 0, 0, 1) == [];
    assert Create(Run(t0, es), 0, 0).1 == Ok;
  }

  /** A reader (1) has joined. */
  function WithReader(t0: int): State {
    OneBook(t0, 1).(users := map[0 := Staff(), 1 := Reader(1)], nextUser := 2)
  }

  /** The reader has borrowed the copy and fifteen days have passed. */
  function DueState(t0: int): State {
    Insert(WithReader(t0), 1, 0, t0).(now := t0 + 15 * MS_PER_DAY)
  }

  lemma BorrowAndWait(t0: int) returns (es: seq<Event>)
    ensures Run(t0, es) == DueState(t0)
  {
    var start := OneBookRun(t0);
    var join, borrow, wait := Do(Register(Reader(1))), Borrow(1, 0), Do(Tick(15 * MS_PER_DAY));
    assert Staff().email[0] == 's' && Reader(1).email[0] == 'r';
    RunExtend(t0, start, join);
    assert Run(t0, start + [join]) == WithReader(t0);
    assert CreateErrors(WithReader(t0), 1, 0, 1) == [];
    RunExtend(t0, start + [join], borrow);
    RunExtend(t0, start + [join] + [borrow], wait);
    es := start + [join] + [borrow] + [wait];
  }

  lemma OnlyLoan(s: State, r: Borrowing)
    requires s.loans == [r]
    ensures ActiveCount(s, None, r.bookId) == ActiveCount(s, Some(r.userId), r.bookId) == if Active(r) then 1 else 0
    ensures Count(s.loans, UnreturnedOf(Some(r.userId), r.bookId)) == if r.returnedAt == None then 1 else 0
    ensures forall today :: Histories.MarkCount(s.loans, today) == if PastDue(r, today) then 1 else 0
  {
    assert s.loans == [] + [r];
    CountAppend([], r, ActiveOf(None, r.bookId));
    CountAppend([], r, ActiveOf(Some(r.userId), r.bookId));
    CountAppend([], r, UnreturnedOf(Some(r.userId), r.bookId));
    forall today ensures Histories.MarkCount(s.loans, today) == if PastDue(r, today) then 1 else 0 {
      CountAppend([], r, PastDueOn(today));
    }
  }

  /** A marking that marks one loan and notifies nobody. */
  lemma MarkedAndNobodyNotified(t0: int)
    ensures exists es :: var s := Run(t0, es);
      && Histories.MarkCount(s.loans, Day(s.now)) == 1
      && Histories.MarkedIds(s.loans, Day(s.now)) == [0]
      && Histories.NotifiedIds(s.loans, Day(s.now)) == []
  {
    var es := BorrowAndWait(t0);
    var s := DueState(t0);
    var r := NewLoan(0, 1, 0, t0);
    assert s.loans == [r] && PastDue(r, Day(s.now));
    OnlyLoan(s, r);
    assert Filter(s.loans, PastDueOn(Day(s.now))) == [r];
    Histories.NothingLeftToMark(s.loans, Day(s.now));
    assert Histories.MarkedIds(Run(t0, es).loans, Day(s.now)) == [0];
  }

  function LateState(t0: int): State {
    DueState(t0).(loans := [NewLoan(0, 1, 0, t0).(status := Overdue)])
  }

  lemma BorrowWaitMark(t0: int) returns (es: seq<Event>)
    ensures Run(t0, es) == LateState(t0)
  {
    var start := BorrowAndWait(t0);
    RunExtend(t0, start, Do(MarkOverdue));
    assert PastDue(NewLoan(0, 1, 0, t0), Day(DueState(t0).now));
    assert Mark(DueState(t0).loans, Day(DueState(t0).now)) == LateState(t0).loans;
    es := start + [Do(MarkOverdue)];
  }

  /** A reader who borrows, waits, is marked overdue and is accepted for the only copy again. */
  lemma SameReaderTwice(t0: int)
    ensures exists es ::
      && Create(Run(t0, es), 1, 0).1 == Ok
      && Count(Run(t0, es).loans, UnreturnedOf(Some(1), 0)) == 1
      && Copies(Run(t0, es), 0) == 1
  {
    var es := BorrowWaitMark(t0);
    OnlyLoan(LateState(t0), LateState(t0).loans[0]);
    assert CreateErrors(LateState(t0), 1, 0, 1) == [];
    assert Create(Run(t0, es), 1, 0).1 == Ok && Copies(Run(t0, es), 0) == 1;
  }

  function Shrink(): Command { UpdateBook(0, 0, BookParams(None, None, None, None, Some(0))) }

  lemma ShrinkAccepted(db: State)
    requires db.books == map[0 := Title(1)] && IsLibrarian(db, 0)
    ensures Execute(db, Shrink()) == (db.(books := map[0 := Title(0)]), Ok)
  {
    TitleIsValid(0);
    assert AssignBook(db.books[0], Shrink().changes) == Title(0);
    assert Refusal(db, Shrink()) == None;
    assert db.books[0 := Title(0)] == map[0 := Title(0)];
  }

  /** An accepted update to no copies while one is out: atomic requests alone leave a book over-lent. */
  lemma ShrunkBelowItsLoan(t0: int)
    ensures exists es :: ActiveCount(Run(t0, es), None, 0) == 1 && Copies(Run(t0, es), 0) == 0
  {
    var start := BorrowAndWait(t0);
    var s := DueState(t0);
    ShrinkAccepted(s);
    RunExtend(t0, start, Do(Shrink()));
    OnlyLoan(Run(t0, start + [Do(Shrink())]), NewLoan(0, 1, 0, t0));
    assert Copies(Run(t0, start + [Do(Shrink())]), 0) == 0;
  }

  // A create that loaded the book before its total was lowered

  /** A reader has loaded the book, one copy on the shelf, and passed the duplicate check. */
  lemma LoadAndCheck(t0: int) returns (acts: seq<Action>)
    ensures var c := Reach(t0, 1, acts);
      Stocked(c, 1, 1) && c.db.loans == [] && c.slots == [Checked(1, 0, 1, c.db.now, false)]
  {
    acts := Stock(t0, 1, 1, 1);
    var db := Reach(t0, 1, acts).db;
    CountZero(db.loans, ActiveOf(Some(1), 0));
    Traces.SameBefore(t0, 1, acts, Load(0, 1, 0));
    acts := acts + [Load(0, 1, 0)];
    assert Reach(t0, 1, acts).slots == [Loaded(1, 0, 1)];
    Traces.SameBefore(t0, 1, acts, CheckDuplicate(0));
    acts := acts + [CheckDuplicate(0)];
  }

  /** One create in flight is accepted for a book that has had no copies since before its copies were counted. */
  lemma AcceptedAfterLowering(t0: int)
    ensures exists acts ::
      && Copies(Reach(t0, 1, acts).db, 0) == 0 && ActiveCount(Reach(t0, 1, acts).db, None, 0) == 0
      && ActiveCount(Reach(t0, 1, acts + [CheckCopies(0)] + [InsertRow(0)]).db, None, 0) == 1
  {
    var start := LoadAndCheck(t0);
    var c0 := Reach(t0, 1, start);
    ShrinkAccepted(c0.db);
    Traces.SameBefore(t0, 1, start, Other(Shrink()));
    var acts := start + [Other(Shrink())];
    var c1 := Reach(t0, 1, acts);
    CountZero(c1.db.loans, ActiveOf(None, 0));
    Traces.SameBefore(t0, 1, acts, CheckCopies(0));
    var passed := acts + [CheckCopies(0)];
    assert Reach(t0, 1, passed) == Config(c1.db, [Passed(1, 0, c0.db.now)]);
    Traces.SameBefore(t0, 1, passed, InsertRow(0));
    InsertCounts(c1.db, 1, 0, c0.db.now, None, 0);
    assert Copies(c1.db, 0) == 0;
    assert ActiveCount(Reach(t0, 1, passed + [InsertRow(0)]).db, None, 0) == 1;
  }
}
