/**
 Runs in which every request is atomic, seen as one-slot schedules; what they
 keep, and where a promise of the documentation fails on them.
 */
module AtomicRuns {
  import opened Wrappers
  import opened Collections
  import opened Schema
  import opened Loans
  import opened Interleaving

  /** An atomic create is its four phases with nothing in between. */
  function Phases(e: Event): seq<Action> {
    match e
    case Borrow(user, book) => [Load(0, user, book), CheckDuplicate(0), CheckCopies(0), InsertRow(0)]
    case Do(c) => [Other(c)]
  }

  function Schedule(es: seq<Event>): seq<Action> {
    if es == [] then [] else Schedule(es[..|es| - 1]) + Phases(es[|es| - 1])
  }

  ghost predicate TotalsWithin(t0: int, es: seq<Event>, book: nat, h: nat) {
    forall n | 0 <= n <= |es| :: Copies(Run(t0, es[..n]), book) <= h
  }

  lemma {:induction false} TotalsWithinPrefix(t0: int, es: seq<Event>, book: nat, h: nat)
    requires es != [] && TotalsWithin(t0, es, book, h)
    ensures TotalsWithin(t0, es[..|es| - 1], book, h)
    ensures Copies(Run(t0, es), book) <= h
  {
    var before := es[..|es| - 1];
    assert forall n | 0 <= n <= |before| :: before[..n] == es[..n];
    assert es[..|es|] == es;
  }

  function ActFour(c: Config, p: seq<Action>): Config
    requires |p| == 4
  {
    Act(Act(Act(Act(c, p[0]), p[1]), p[2]), p[3])
  }

  /** Uninterrupted, the four phases are the atomic create, whether it is accepted or refused at any of them. */
  lemma FourPhasesAreCreate(s: State, user: nat, book: nat)
    ensures ActFour(Config(s, [Idle]), Phases(Borrow(user, book))) == Config(Create(s, user, book).0, [Idle])
  {
  }

  lemma PhasesAreCreate(t0: int, acts: seq<Action>, s: State, user: nat, b: nat, book: nat, h: nat)
    requires Reach(t0, 1, acts) == Config(s, [Idle])
    requires NeverAbove(t0, 1, acts, book, h) && Copies(s, book) <= h
    ensures Reach(t0, 1, acts + Phases(Borrow(user, b))) == Config(Create(s, user, b).0, [Idle])
    ensures NeverAbove(t0, 1, acts + Phases(Borrow(user, b)), book, h)
  {
    var p := Phases(Borrow(user, b));
    FourPhasesAreCreate(s, user, b);
    var as1 := acts + [p[0]];
    var as2 := as1 + [p[1]];
    var as3 := as2 + [p[2]];
    Extend(t0, 1, acts, p[0], book, h);
    Extend(t0, 1, as1, p[1], book, h);
    Extend(t0, 1, as2, p[2], book, h);
    Extend(t0, 1, as3, p[3], book, h);
    assert acts + p == as3 + [p[3]];
  }

  /** The atomic machine is the interleaved one with a single slot. */
  lemma {:induction false} AtomicIsOneSlot(t0: int, es: seq<Event>, book: nat, h: nat)
    requires TotalsWithin(t0, es, book, h)
    ensures Reach(t0, 1, Schedule(es)) == Config(Run(t0, es), [Idle])
    ensures NeverAbove(t0, 1, Schedule(es), book, h)
  {
    if es == [] {
      assert es[..0] == es;
    } else {
      TotalsWithinPrefix(t0, es, book, h);
      var before, e := es[..|es| - 1], es[|es| - 1];
      AtomicIsOneSlot(t0, before, book, h);
      var acts := Schedule(before);
      match e
      case Do(c) => Extend(t0, 1, acts, Other(c), book, h);
      case Borrow(user, b) =>
        assert before[..|before|] == before;
        PhasesAreCreate(t0, acts, Run(t0, before), user, b, book, h);
    }
  }

  /** Atomic runs never lend more active copies than the high-water mark, nor the same book twice to one user. */
  lemma {:induction false} AtomicBounds(t0: int, es: seq<Event>, user: nat, book: nat, h: nat)
    requires TotalsWithin(t0, es, book, h)
    ensures ActiveCount(Run(t0, es), None, book) <= h
    ensures ActiveCount(Run(t0, es), Some(user), book) <= 1
  {
    AtomicIsOneSlot(t0, es, book, h);
    OvershootOfAll(t0, 1, Schedule(es), book, h);
    NeverMoreThanSlots(t0, 1, Schedule(es), InFlightPair(user, book));
    PairBound(t0, 1, Schedule(es), user, book, 1);
  }

  // Unreturned loans: the promise that nobody borrows the same book twice

  predicate Mine(r: Borrowing, user: Option<nat>, book: nat) { r.bookId == book && (user.Some? ==> r.userId == user.value) }

  function UnreturnedOf(user: Option<nat>, book: nat): Borrowing -> bool {
    (r: Borrowing) => r.returnedAt == None && Mine(r, user, book)
  }

  function OverdueOf(user: Option<nat>, book: nat): Borrowing -> bool {
    (r: Borrowing) => r.status == Overdue && Mine(r, user, book)
  }

  lemma UnreturnedSplit(s: State, user: Option<nat>, book: nat)
    requires WellFormed(s)
    ensures Count(s.loans, UnreturnedOf(user, book)) == ActiveCount(s, user, book) + Count(s.loans, OverdueOf(user, book))
  {
    CountSplit(s.loans, ActiveOf(user, book), OverdueOf(user, book), UnreturnedOf(user, book));
  }

  /**
   On every schedule the copies out of the building exceed the high-water mark
   by at most the overdue ones and one less than the overlapping creates.
   */
  lemma {:induction false} UnreturnedOvershoot(t0: int, k: nat, acts: seq<Action>, book: nat, h: nat, m: nat)
    requires m >= 1
    requires NeverAbove(t0, k, acts, book, h) && NeverMore(t0, k, acts, InFlightFor(book), m)
    ensures var loans := Reach(t0, k, acts).db.loans;
      Count(loans, UnreturnedOf(None, book)) <= h + m - 1 + Count(loans, OverdueOf(None, book))
  {
    Overshoot(t0, k, acts, book, h, m);
    ReachIsWellFormed(t0, k, acts);
    UnreturnedSplit(Reach(t0, k, acts).db, None, book);
  }

  /** With atomic requests, by at most the overdue ones. */
  lemma {:induction false} UnreturnedBound(t0: int, es: seq<Event>, book: nat, h: nat)
    requires TotalsWithin(t0, es, book, h)
    ensures Count(Run(t0, es).loans, UnreturnedOf(None, book)) <= h + Count(Run(t0, es).loans, OverdueOf(None, book))
  {
    RunIsWellFormed(t0, es);
    AtomicBounds(t0, es, 0, book, h);
    UnreturnedSplit(Run(t0, es), None, book);
  }

  /** An accepted create repeats a loan the user still holds exactly when that loan has been marked overdue. */
  lemma RepeatsExactlyWhenOverdue(t0: int, es: seq<Event>, user: nat, book: nat)
    requires Create(Run(t0, es), user, book).1 == Ok
    ensures Count(Run(t0, es).loans, UnreturnedOf(Some(user), book)) > 0 <==>
            Count(Run(t0, es).loans, OverdueOf(Some(user), book)) > 0
  {
    RunIsWellFormed(t0, es);
    UnreturnedSplit(Run(t0, es), Some(user), book);
  }

  // Capacity

  function Shortfall(s: State, book: nat): int {
    var short := ActiveCount(s, None, book) - Copies(s, book);
    if short > 0 then short else 0
  }

  /** An accepted update of the book that sets its total below both the old total and its active loans. */
  predicate ShrinksBelowActive(s: State, e: Event, book: nat) {
    && e.Do? && e.command.UpdateBook? && e.command.id == book && Step(s, e).1 == Ok
    && Copies(Step(s, e).0, book) < Copies(s, book)
    && Copies(Step(s, e).0, book) < ActiveCount(s, None, book)
  }

  lemma CreateKeepsShortfall(s: State, user: nat, b: nat, book: nat)
    requires Create(s, user, b).1 == Ok
    ensures Shortfall(Create(s, user, b).0, book) <= Shortfall(s, book)
  {
    InsertCounts(s, user, b, s.now, None, book);
  }

  lemma CommandShortfall(s: State, c: Command, book: nat)
    requires WellFormed(s) && Refusal(s, c) == None
    ensures Shortfall(Effect(s, c), book) > Shortfall(s, book) <==> ShrinksBelowActive(s, Do(c), book)
  {
    CommandsNeverActivate(s, c, None, book);
    match c
    case DestroyBook(_, id) =>
      if id == book {
        CountZero(Filter(s.loans, NotOfBook(id)), ActiveOf(None, book));
      }
    case CreateBook(_, _) =>
      if s.nextBook == book { CountZero(s.loans, ActiveOf(None, book)); }
    case _ =>
  }

  /** A book gets more active loans than copies, or a larger excess, exactly when its total is lowered below them. */
  lemma ShortfallGrowsExactlyWhenShrunk(s: State, e: Event, book: nat)
    requires WellFormed(s)
    ensures Shortfall(Step(s, e).0, book) > Shortfall(s, book) <==> ShrinksBelowActive(s, e, book)
  {
    match e
    case Borrow(user, b) =>
      if Create(s, user, b).1 == Ok { CreateKeepsShortfall(s, user, b, book); }
    case Do(c) =>
      if Refusal(s, c) == None { CommandShortfall(s, c, book); }
  }

  /** As long as no accepted update lowers a book's total below its active loans, it never has more of them than copies. */
  lemma {:induction false} CurrentTotalBound(t0: int, es: seq<Event>, book: nat)
    requires forall n | 0 <= n < |es| :: !ShrinksBelowActive(Run(t0, es[..n]), es[n], book)
    ensures ActiveCount(Run(t0, es), None, book) <= Copies(Run(t0, es), book)
  {
    if es == [] {
    } else {
      var before := es[..|es| - 1];
      assert forall n | 0 <= n < |before| :: before[..n] == es[..n];
      CurrentTotalBound(t0, before, book);
      RunIsWellFormed(t0, before);
      ShortfallGrowsExactlyWhenShrunk(Run(t0, before), es[|es| - 1], book);
    }
  }
}
