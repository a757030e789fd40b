/**
 What a whole atomic run says about the rows it leaves: the stored status is a
 function of the dates, rows only move forward, and the books balance.
 */
module Histories {
  import opened Wrappers
  import opened Collections
  import opened Schema
  import opened Loans

  // Overdue marking

  function MarkCount(loans: seq<Borrowing>, today: int): nat { Count(loans, PastDueOn(today)) }

  /** Marking day by day and marking once at the end leave the same rows and report the same total. */
  lemma MarkingsCompose(loans: seq<Borrowing>, d1: int, d2: int)
    requires d1 <= d2
    ensures Mark(Mark(loans, d1), d2) == Mark(loans, d2)
    ensures MarkCount(loans, d1) + MarkCount(Mark(loans, d1), d2) == MarkCount(loans, d2)
  {
    var late := (r: Borrowing) => PastDue(r, d2) && !PastDue(r, d1);
    CountMap(loans, MarkRow(d1), PastDueOn(d2), late);
    CountSplit(loans, PastDueOn(d1), late, PastDueOn(d2));
  }

  /** A second marking on the same day finds nothing, and so does anyone who asks again which rows are late. */
  lemma NothingLeftToMark(loans: seq<Borrowing>, today: int)
    ensures Mark(Mark(loans, today), today) == Mark(loans, today)
    ensures Filter(Mark(loans, today), PastDueOn(today)) == []
  {
    MarkingsCompose(loans, today, today);
    FilterLength(Mark(loans, today), PastDueOn(today));
  }

  function LoanId(): Borrowing -> nat { (r: Borrowing) => r.id }

  /** The loans a marking marks. */
  function MarkedIds(loans: seq<Borrowing>, today: int): seq<nat> { Map(Filter(loans, PastDueOn(today)), LoanId()) }

  /** The loans its notification loop visits: the same relation, evaluated after the update. */
  function NotifiedIds(loans: seq<Borrowing>, today: int): seq<nat> {
    Map(Filter(Mark(loans, today), PastDueOn(today)), LoanId())
  }

  /** The loans notified are those marked exactly when none is marked; otherwise some are marked and nobody is told. */
  lemma NotifiedExactlyWhenNoneMarked(loans: seq<Borrowing>, today: int)
    ensures NotifiedIds(loans, today) == MarkedIds(loans, today) <==> MarkCount(loans, today) == 0
    ensures NotifiedIds(loans, today) == [] && |MarkedIds(loans, today)| == MarkCount(loans, today)
  {
    NothingLeftToMark(loans, today);
    FilterLength(loans, PastDueOn(today));
  }

  /** Marking and returning a borrowing can be swapped. */
  lemma MarkCommutesWithReturn(loans: seq<Borrowing>, today: int, id: nat, at: int, comment: string)
    ensures Map(Mark(loans, today), ReturnRow(id, at, comment)) == Mark(Map(loans, ReturnRow(id, at, comment)), today)
  {
    var a, b := Map(Mark(loans, today), ReturnRow(id, at, comment)), Mark(Map(loans, ReturnRow(id, at, comment)), today);
    assert forall i | 0 <= i < |loans| :: a[i] == b[i];
  }

  // Status is a function of the dates

  /** The day of the last marking in a run. */
  function LastMarking(t0: int, es: seq<Event>): Option<int> {
    if es == [] then None
    else
      var before := es[..|es| - 1];
      if es[|es| - 1] == Do(MarkOverdue) then Some(Day(Run(t0, before).now)) else LastMarking(t0, before)
  }

  function DerivedStatus(r: Borrowing, marked: Option<int>): Status {
    if r.returnedAt.Some? then Returned
    else if marked.Some? && r.dueDate < marked.value then Overdue
    else Borrowed
  }

  ghost predicate StatusesDerived(s: State, marked: Option<int>) {
    && (marked.Some? ==> marked.value <= Day(s.now))
    && forall r | r in s.loans :: r.status == DerivedStatus(r, marked)
  }

  lemma FilterStatuses(s: State, keep: Borrowing -> bool, marked: Option<int>)
    requires StatusesDerived(s, marked)
    ensures forall r | r in Filter(s.loans, keep) :: r.status == DerivedStatus(r, marked)
  {
  }

  lemma StepKeepsStatuses(s: State, e: Event, marked: Option<int>)
    requires StatusesDerived(s, marked)
    ensures StatusesDerived(Step(s, e).0, if e == Do(MarkOverdue) then Some(Day(s.now)) else marked)
  {
    match e
    case Borrow(_, _) => assert Day(s.now + LOAN_DAYS * MS_PER_DAY) == Day(s.now) + LOAN_DAYS;
    case Do(c) =>
      match c
      case DestroyBook(_, id) => FilterStatuses(s, NotOfBook(id), marked);
      case DestroyMember(_, id) => FilterStatuses(s, NotOfUser(id), marked);
      case _ =>
  }

  /** Returned if stamped, else overdue if due before the last marking's day, else borrowed. */
  lemma {:induction false} StatusIsDerived(t0: int, es: seq<Event>)
    ensures StatusesDerived(Run(t0, es), LastMarking(t0, es))
  {
    if es == [] {
    } else {
      StatusIsDerived(t0, es[..|es| - 1]);
      StepKeepsStatuses(Run(t0, es[..|es| - 1]), es[|es| - 1], LastMarking(t0, es[..|es| - 1]));
    }
  }

  /** The `returned_at` test in `active` adds nothing, and the dashboard's current loans are the unreturned ones. */
  lemma StatusAloneDecides(t0: int, es: seq<Event>, r: Borrowing)
    requires r in Run(t0, es).loans
    ensures Active(r) <==> r.status == Borrowed
    ensures r.status in {Borrowed, Overdue} <==> r.returnedAt == None
  {
    StatusIsDerived(t0, es);
  }

  // Rows only move forward

  function Progress(st: Status): nat { match st case Borrowed => 0 case Overdue => 1 case Returned => 2 }

  /** The same loan at a later time: nothing it was created with changes, and its status never goes back. */
  predicate Later(earlier: Borrowing, later: Borrowing) {
    && later.id == earlier.id && later.userId == earlier.userId && later.bookId == earlier.bookId
    && later.borrowedAt == earlier.borrowedAt && later.dueDate == earlier.dueDate
    && Progress(earlier.status) <= Progress(later.status)
  }

  ghost predicate Descends(s: State, s': State) {
    && s.nextLoan <= s'.nextLoan
    && forall r' | r' in s'.loans && r'.id < s.nextLoan :: exists r :: r in s.loans && Later(r, r')
  }

  lemma StepDescends(s: State, e: Event)
    ensures Descends(s, Step(s, e).0)
  {
    var s' := Step(s, e).0;
    forall r' | r' in s'.loans && r'.id < s.nextLoan ensures exists r :: r in s.loans && Later(r, r') {
      var i :| 0 <= i < |s'.loans| && s'.loans[i] == r';
      if r' in s.loans {
        assert Later(r', r');
      } else {
        assert i < |s.loans| && s.loans[i] in s.loans && Later(s.loans[i], r');
      }
    }
  }

  lemma {:induction false} RunDescends(t0: int, es: seq<Event>, n: nat)
    requires n <= |es|
    ensures Descends(Run(t0, es[..n]), Run(t0, es))
  {
    if n == |es| {
      assert es[..n] == es;
      assert forall r | r in Run(t0, es).loans :: Later(r, r);
    } else {
      var before := es[..|es| - 1];
      assert before[..n] == es[..n];
      RunDescends(t0, before, n);
      StepDescends(Run(t0, before), es[|es| - 1]);
    }
  }

  /** Two sightings of one id in a run are the same loan, moved forward; returned is final and ids are never reused. */
  lemma RowsMoveForward(t0: int, es: seq<Event>, n: nat, r: Borrowing, r': Borrowing)
    requires n <= |es| && r in Run(t0, es[..n]).loans && r' in Run(t0, es).loans && r.id == r'.id
    ensures Later(r, r')
    ensures r.status == Returned ==> r'.status == Returned
  {
    RunDescends(t0, es, n);
    RunIsWellFormed(t0, es[..n]);
    var s := Run(t0, es[..n]);
    var q :| q in s.loans && Later(q, r');
    var i :| 0 <= i < |s.loans| && s.loans[i] == q;
    var j :| 0 <= j < |s.loans| && s.loans[j] == r;
    assert i == j;
  }

  // The ledger of a book

  datatype Ledger = Ledger(created: nat, marked: nat, returned: nat, deleted: nat, deletedActive: nat)

  function OfBookIn(book: nat, st: Status): Borrowing -> bool { (r: Borrowing) => r.bookId == book && r.status == st }
  function PastDueOfBook(book: nat, today: int): Borrowing -> bool { (r: Borrowing) => r.bookId == book && PastDue(r, today) }
  function ActiveLoan(book: nat, id: nat): Borrowing -> bool { (r: Borrowing) => ActiveOf(None, book)(r) && r.id == id }
  function OfReader(book: nat, user: nat): Borrowing -> bool { (r: Borrowing) => r.bookId == book && r.userId == user }

  /** What one request adds to the ledger, read off the state it meets. */
  function Entry(s: State, e: Event, book: nat): Ledger {
    var none := Ledger(0, 0, 0, 0, 0);
    if Step(s, e).1 != Ok then none
    else
      match e
      case Borrow(_, b) => if b == book then none.(created := 1) else none
      case Do(MarkOverdue) => none.(marked := Count(s.loans, PastDueOfBook(book, Day(s.now))))
      case Do(ReturnBook(_, id, _)) => none.(returned := Count(s.loans, ActiveLoan(book, id)))
      case Do(DestroyBook(_, id)) =>
        if id != book then none
        else none.(deleted := Count(s.loans, OfBook(book)), deletedActive := ActiveCount(s, None, book))
      case Do(DestroyMember(_, id)) =>
        none.(deleted := Count(s.loans, OfReader(book, id)), deletedActive := ActiveCount(s, Some(id), book))
      case Do(_) => none
  }

  function Post(l: Ledger, e: Ledger): Ledger {
    Ledger(l.created + e.created, l.marked + e.marked, l.returned + e.returned,
           l.deleted + e.deleted, l.deletedActive + e.deletedActive)
  }

  function LedgerOf(t0: int, es: seq<Event>, book: nat): Ledger {
    if es == [] then Ledger(0, 0, 0, 0, 0)
    else Post(LedgerOf(t0, es[..|es| - 1], book), Entry(Run(t0, es[..|es| - 1]), es[|es| - 1], book))
  }

  ghost predicate Balanced(s: State, l: Ledger, book: nat) {
    && l.created == Count(s.loans, OfBook(book)) + l.deleted
    && l.created == ActiveCount(s, None, book) + l.marked + l.returned + l.deletedActive
  }

  lemma DestroyBalances(s: State, keep: Borrowing -> bool, gone: Borrowing -> bool, goneActive: Borrowing -> bool, book: nat)
    requires forall r :: gone(r) == (!keep(r) && r.bookId == book)
    requires forall r :: goneActive(r) == (!keep(r) && ActiveOf(None, book)(r))
    ensures Count(s.loans, OfBook(book)) == Count(Filter(s.loans, keep), OfBook(book)) + Count(s.loans, gone)
    ensures ActiveCount(s, None, book) == Count(Filter(s.loans, keep), ActiveOf(None, book)) + Count(s.loans, goneActive)
  {
    var kept := (r: Borrowing) => keep(r) && r.bookId == book;
    var keptActive := (r: Borrowing) => keep(r) && ActiveOf(None, book)(r);
    CountFilter(s.loans, keep, OfBook(book), kept);
    CountFilter(s.loans, keep, ActiveOf(None, book), keptActive);
    CountSplit(s.loans, kept, gone, OfBook(book));
    CountSplit(s.loans, keptActive, goneActive, ActiveOf(None, book));
  }

  /** An UPDATE that takes exactly the `moved` rows out of the active ones. */
  lemma UpdateBalances(s: State, f: Borrowing -> Borrowing, moved: Borrowing -> bool, book: nat)
    requires forall r | r in s.loans :: f(r).bookId == r.bookId
    requires forall r | r in s.loans :: moved(r) ==> ActiveOf(None, book)(r)
    requires forall r | r in s.loans :: ActiveOf(None, book)(f(r)) == (ActiveOf(None, book)(r) && !moved(r))
    ensures Count(Map(s.loans, f), OfBook(book)) == Count(s.loans, OfBook(book))
    ensures ActiveCount(s, None, book) == Count(Map(s.loans, f), ActiveOf(None, book)) + Count(s.loans, moved)
  {
    var stays := (r: Borrowing) => ActiveOf(None, book)(r) && !moved(r);
    CountMap(s.loans, f, OfBook(book), OfBook(book));
    CountMap(s.loans, f, ActiveOf(None, book), stays);
    CountSplit(s.loans, stays, moved, ActiveOf(None, book));
  }

  lemma OtherBookBalances(s: State, id: nat, book: nat)
    requires id != book
    ensures Count(Filter(s.loans, NotOfBook(id)), OfBook(book)) == Count(s.loans, OfBook(book))
    ensures Count(Filter(s.loans, NotOfBook(id)), ActiveOf(None, book)) == ActiveCount(s, None, book)
  {
    CountFilter(s.loans, NotOfBook(id), OfBook(book), OfBook(book));
    CountFilter(s.loans, NotOfBook(id), ActiveOf(None, book), ActiveOf(None, book));
  }

  lemma DestroyBookBalances(s: State, id: nat, l: Ledger, book: nat)
    requires Balanced(s, l, book)
    ensures var gone, active := Count(s.loans, OfBook(book)), ActiveCount(s, None, book);
      Balanced(s.(loans := Filter(s.loans, NotOfBook(id)), books := s.books - {id}),
               if id == book then Post(l, Ledger(0, 0, 0, gone, active)) else l, book)
  {
    if id == book {
      DestroyBalances(s, NotOfBook(id), OfBook(book), ActiveOf(None, book), book);
    } else {
      OtherBookBalances(s, id, book);
    }
  }

  lemma MarkBalances(s: State, l: Ledger, book: nat)
    requires WellFormed(s) && Balanced(s, l, book)
    ensures Balanced(Effect(s, MarkOverdue), Post(l, Ledger(0, Count(s.loans, PastDueOfBook(book, Day(s.now))), 0, 0, 0)), book)
  {
    UpdateBalances(s, MarkRow(Day(s.now)), PastDueOfBook(book, Day(s.now)), book);
  }

  lemma ReturnBalances(s: State, actor: nat, id: nat, comment: string, l: Ledger, book: nat)
    requires Balanced(s, l, book) && Refusal(s, ReturnBook(actor, id, comment)) == None
    ensures Balanced(Effect(s, ReturnBook(actor, id, comment)), Post(l, Ledger(0, 0, Count(s.loans, ActiveLoan(book, id)), 0, 0)), book)
  {
    UpdateBalances(s, ReturnRow(id, s.now, comment), ActiveLoan(book, id), book);
  }

  lemma EffectBalances(s: State, c: Command, l: Ledger, book: nat)
    requires WellFormed(s) && Balanced(s, l, book) && Refusal(s, c) == None
    ensures Balanced(Effect(s, c), Post(l, Entry(s, Do(c), book)), book)
  {
    match c
    case MarkOverdue => MarkBalances(s, l, book);
    case ReturnBook(actor, id, comment) => ReturnBalances(s, actor, id, comment, l, book);
    case DestroyBook(_, id) => DestroyBookBalances(s, id, l, book);
    case DestroyMember(_, id) =>
      DestroyBalances(s, NotOfUser(id), OfReader(book, id), ActiveOf(Some(id), book), book);
    case _ =>
  }

  lemma StepBalances(s: State, e: Event, l: Ledger, book: nat)
    requires WellFormed(s) && Balanced(s, l, book)
    ensures Balanced(Step(s, e).0, Post(l, Entry(s, e, book)), book)
  {
    match e
    case Borrow(user, b) =>
      InsertCounts(s, user, b, s.now, None, book);
      CountAppend(s.loans, NewLoan(s.nextLoan, user, b, s.now), OfBook(book));
    case Do(c) =>
      if Refusal(s, c) == None { EffectBalances(s, c, l, book); }
  }

  lemma {:induction false} RunBalances(t0: int, es: seq<Event>, book: nat)
    ensures Balanced(Run(t0, es), LedgerOf(t0, es, book), book)
  {
    if es == [] {
    } else {
      var before := es[..|es| - 1];
      RunBalances(t0, before, book);
      RunIsWellFormed(t0, before);
      StepBalances(Run(t0, before), es[|es| - 1], LedgerOf(t0, before, book), book);
    }
  }

  /**
   Over any run from an empty database the loans created are the borrowed, overdue, returned and deleted ones,
   and the borrowed ones are those created less first returns, markings and deletions made while borrowed.
   */
  lemma LedgerBalances(t0: int, es: seq<Event>, book: nat)
    ensures var s, l := Run(t0, es), LedgerOf(t0, es, book);
      && l.created == Count(s.loans, OfBookIn(book, Borrowed)) + Count(s.loans, OfBookIn(book, Overdue))
                      + Count(s.loans, OfBookIn(book, Returned)) + l.deleted
      && Count(s.loans, OfBookIn(book, Borrowed)) == l.created - l.returned - l.marked - l.deletedActive
  {
    var s := Run(t0, es);
    RunBalances(t0, es, book);
    RunIsWellFormed(t0, es);
    var open := (r: Borrowing) => r.bookId == book && r.status != Returned;
    CountSplit(s.loans, OfBookIn(book, Borrowed), OfBookIn(book, Overdue), open);
    CountSplit(s.loans, open, OfBookIn(book, Returned), OfBook(book));
    CountSame(s.loans, OfBookIn(book, Borrowed), ActiveOf(None, book));
  }

  /** Each marking moves exactly as many rows from borrowed to overdue as it reports. */
  lemma MarkingMovesItsCount(loans: seq<Borrowing>, today: int, book: nat)
    ensures var moved := Count(loans, PastDueOfBook(book, today));
      && Count(Mark(loans, today), OfBookIn(book, Borrowed)) == Count(loans, OfBookIn(book, Borrowed)) - moved
      && Count(Mark(loans, today), OfBookIn(book, Overdue)) == Count(loans, OfBookIn(book, Overdue)) + moved
      && Count(Mark(loans, today), OfBookIn(book, Returned)) == Count(loans, OfBookIn(book, Returned))
  {
    var f, late := MarkRow(today), PastDueOfBook(book, today);
    var stays := (r: Borrowing) => r.bookId == book && r.status == Borrowed && !PastDue(r, today);
    var joins := (r: Borrowing) => r.bookId == book && (r.status == Overdue || PastDue(r, today));
    CountMap(loans, f, OfBookIn(book, Borrowed), stays);
    CountMap(loans, f, OfBookIn(book, Overdue), joins);
    CountMap(loans, f, OfBookIn(book, Returned), OfBookIn(book, Returned));
    CountSplit(loans, stays, late, OfBookIn(book, Borrowed));
    CountSplit(loans, OfBookIn(book, Overdue), late, joins);
  }
}
