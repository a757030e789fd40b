/**
 Day differences as the client computes them, in integer milliseconds with a
 fixed offset from UTC, and the date windows of the server.
 */
module DueDates {
  import opened Wrappers
  import opened Collections
  import opened Schema
  import opened Loans
  import Histories

  /** `Math.ceil(ms / msInDay)`. */
  function CeilDays(ms: int): int { -((-ms) / MS_PER_DAY) }

  /** A date string parses as UTC midnight. */
  function Midnight(day: int): int { day * MS_PER_DAY }

  /** Midnight of the local day containing `t`, at `offset` milliseconds east of UTC. */
  function LocalMidnight(t: int, offset: int): int { Midnight(Day(t + offset)) - offset }

  /** The highlight of a row on the member dashboard, and the librarian's badge: due instant against now. */
  function RowDays(due: int, now: int): int { CeilDays(Midnight(due) - now) }

  /** `dueBadge`: local due day against local today. */
  function BadgeDays(due: int, now: int, offset: int): int {
    CeilDays(LocalMidnight(Midnight(due), offset) - LocalMidnight(now, offset))
  }

  predicate IsOffset(offset: int) { -MS_PER_DAY < offset < MS_PER_DAY }

  /** Local time is already on the next UTC day's date (east), or already on the UTC date (west). */
  predicate LocalDayAhead(now: int, offset: int) {
    var sinceMidnight := now - Midnight(Day(now));
    if offset >= 0 then sinceMidnight + offset >= MS_PER_DAY else sinceMidnight + offset >= 0
  }

  /** The badge is a difference of local days. */
  lemma BadgeIsDayDifference(due: int, now: int, offset: int)
    ensures BadgeDays(due, now, offset) == Day(Midnight(due) + offset) - Day(now + offset)
  {
  }

  lemma DaysInUtc(due: int, now: int)
    ensures RowDays(due, now) == due - Day(now)
  {
  }

  /** West of UTC a due date's midnight falls on the local day before. */
  lemma LocalDueDay(due: int, offset: int)
    requires IsOffset(offset)
    ensures Day(Midnight(due) + offset) == if offset >= 0 then due else due - 1
  {
  }

  lemma LocalToday(now: int, offset: int)
    requires IsOffset(offset)
    ensures Day(now + offset) == Day(now) + (if LocalDayAhead(now, offset) then 1 else 0) - if offset >= 0 then 0 else 1
  {
  }

  /**
   On one card the badge and the row highlight count the same days, or the badge
   one fewer; one fewer exactly when the local day has moved on relative to the
   due date's own.
   */
  lemma BadgeAgainstHighlight(due: int, now: int, offset: int)
    requires IsOffset(offset)
    ensures BadgeDays(due, now, offset) == RowDays(due, now) || BadgeDays(due, now, offset) == RowDays(due, now) - 1
    ensures BadgeDays(due, now, offset) == RowDays(due, now) - 1 <==> LocalDayAhead(now, offset)
    ensures offset == 0 ==> BadgeDays(due, now, offset) == RowDays(due, now)
  {
    BadgeIsDayDifference(due, now, offset);
    DaysInUtc(due, now);
    LocalDueDay(due, offset);
    LocalToday(now, offset);
  }

  /** A card that says overdue without the red highlight: exactly those due today while the local day has moved on. */
  lemma OverdueWithoutHighlight(due: int, now: int, offset: int)
    requires IsOffset(offset)
    ensures BadgeDays(due, now, offset) < 0 <= RowDays(due, now) <==> due == Day(now) && LocalDayAhead(now, offset)
    ensures RowDays(due, now) < 0 ==> BadgeDays(due, now, offset) < 0
  {
    BadgeAgainstHighlight(due, now, offset);
    DaysInUtc(due, now);
  }

  // The librarian's badge and the server's window

  datatype Badge = DueSoon(days: int) | Plain

  function LibrarianBadge(due: int, now: int): Badge {
    var days := RowDays(due, now);
    if days <= 3 && days >= 0 then DueSoon(days) else Plain
  }

  /** `due_date: today..(today + 3.days)` on the dashboards. */
  predicate InDueSoonWindow(due: int, today: int) { today <= due <= today + 3 }

  /** The badge on a borrowed row says "Due soon" exactly for the rows the dashboards count, naming the days left. */
  lemma BadgeIsTheWindow(due: int, now: int)
    ensures LibrarianBadge(due, now) == if InDueSoonWindow(due, Day(now)) then DueSoon(due - Day(now)) else Plain
  {
  }

  /** Once overdue loans are marked, a plain badge that day means more than three days are left. */
  lemma PlainBadgeAfterMarking(loans: seq<Borrowing>, r: Borrowing, now: int)
    requires r in Mark(loans, Day(now)) && r.status == Borrowed
    ensures LibrarianBadge(r.dueDate, now) == Plain <==> r.dueDate > Day(now) + 3
  {
    var i :| 0 <= i < |loans| && Mark(loans, Day(now))[i] == r;
    assert r == MarkRow(Day(now))(loans[i]);
  }

  /** In every reachable state, for the rest of the day of a marking, a plain badge means more than three days are left. */
  lemma PlainBadgeOnMarkingDay(t0: int, es: seq<Event>, r: Borrowing)
    requires r in Run(t0, es).loans && r.status == Borrowed
    requires Histories.LastMarking(t0, es) == Some(Day(Run(t0, es).now))
    ensures var now := Run(t0, es).now;
      LibrarianBadge(r.dueDate, now) == Plain <==> r.dueDate > Day(now) + 3
  {
    Histories.StatusIsDerived(t0, es);
    BadgeIsTheWindow(r.dueDate, Run(t0, es).now);
  }

  // The member dashboard: coloured cards against the alert counters

  predicate Current(r: Borrowing, user: nat) { r.userId == user && (r.status == Borrowed || r.status == Overdue) }

  function Amber(user: nat, now: int): Borrowing -> bool {
    (r: Borrowing) => Current(r, user) && 0 <= RowDays(r.dueDate, now) <= 3
  }

  function Red(user: nat, now: int): Borrowing -> bool {
    (r: Borrowing) => Current(r, user) && RowDays(r.dueDate, now) < 0
  }

  function DueSoonOf(user: nat, today: int): Borrowing -> bool {
    (r: Borrowing) => r.userId == user && r.status == Borrowed && InDueSoonWindow(r.dueDate, today)
  }

  function MarkedOf(user: nat): Borrowing -> bool { (r: Borrowing) => r.userId == user && r.status == Overdue }

  function UnmarkedOf(user: nat, today: int): Borrowing -> bool { (r: Borrowing) => r.userId == user && PastDue(r, today) }

  /**
   In every reachable state the cards shown are the user's unreturned loans, red
   when due before today and amber when due within three days, marked or not; the
   overdue alert counts those the last marking found late.
   */
  lemma CardsAreUnreturned(t0: int, es: seq<Event>, user: nat, r: Borrowing)
    requires r in Run(t0, es).loans
    ensures Current(r, user) <==> r.userId == user && r.returnedAt == None
    ensures var now, marked := Run(t0, es).now, Histories.LastMarking(t0, es);
      && (Red(user, now)(r) <==> r.userId == user && r.returnedAt == None && r.dueDate < Day(now))
      && (Amber(user, now)(r) <==> r.userId == user && r.returnedAt == None && Day(now) <= r.dueDate <= Day(now) + 3)
      && (MarkedOf(user)(r) <==>
            r.userId == user && r.returnedAt == None && marked.Some? && r.dueDate < marked.value)
  {
    Histories.StatusIsDerived(t0, es);
    assert r.status == Histories.DerivedStatus(r, Histories.LastMarking(t0, es));
    DaysInUtc(r.dueDate, Run(t0, es).now);
  }

  /**
   In every reachable state the amber cards are as many as the due-soon alert
   says, and the red ones as many as the overdue alert says plus the late loans
   no marking has reached yet.
   */
  lemma CardsAgainstAlerts(t0: int, es: seq<Event>, user: nat)
    ensures var s := Run(t0, es);
      && Count(s.loans, Amber(user, s.now)) == Count(s.loans, DueSoonOf(user, Day(s.now)))
      && Count(s.loans, Red(user, s.now)) == Count(s.loans, MarkedOf(user)) + Count(s.loans, UnmarkedOf(user, Day(s.now)))
  {
    var s := Run(t0, es);
    Histories.StatusIsDerived(t0, es);
    var marked := Histories.LastMarking(t0, es);
    var today := Day(s.now);
    forall r | r in s.loans
      ensures Amber(user, s.now)(r) == DueSoonOf(user, today)(r)
      ensures Red(user, s.now)(r) == (MarkedOf(user)(r) || UnmarkedOf(user, today)(r))
    {
      DaysInUtc(r.dueDate, s.now);
      assert r.status == Histories.DerivedStatus(r, marked);
      assert r.status == Overdue ==> r.dueDate < today;
      assert Current(r, user) <==> r.userId == user && r.status != Returned;
      assert Amber(user, s.now)(r) == (Current(r, user) && 0 <= RowDays(r.dueDate, s.now) <= 3);
    }
    CountSame(s.loans, Amber(user, s.now), DueSoonOf(user, today));
    CountSplit(s.loans, MarkedOf(user), UnmarkedOf(user, today), Red(user, s.now));
  }
}
