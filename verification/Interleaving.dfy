/**
 The same system with creation split where the server splits it: load the
 book, look for a duplicate, count the copies, insert. Nothing locks the
 phases together and the (user, book, status) index is not unique, so other
 requests run in between. A configuration has one slot for each create that
 may be in flight.
 */
module Interleaving {
  import opened Wrappers
  import opened Collections
  import opened Schema
  import opened Loans

  datatype Slot =
    | Idle
    | Loaded(user: nat, book: nat, total: int)
    | Checked(user: nat, book: nat, total: int, stamp: int, duplicate: bool)
    | Passed(user: nat, book: nat, stamp: int)

  datatype Action =
    | Load(slot: nat, user: nat, book: nat)
    | CheckDuplicate(slot: nat)
    | CheckCopies(slot: nat)
    | InsertRow(slot: nat)
    | Other(command: Command)

  datatype Config = Config(db: State, slots: seq<Slot>)

  function IdleSlots(k: nat): seq<Slot> { seq(k, _ => Idle) }

  /** One phase of the create held in a slot; the row is stored only while its foreign keys exist. */
  function Advance(db: State, slot: Slot, a: Action): (State, Slot) {
    match (slot, a)
    case (Idle, Load(_, user, book)) =>
      if user in db.users && book in db.books then (db, Loaded(user, book, db.books[book].totalCopies)) else (db, Idle)
    case (Loaded(user, book, total), CheckDuplicate(_)) =>
      (db, Checked(user, book, total, db.now, ActiveCount(db, Some(user), book) > 0))
    case (Checked(user, book, total, stamp, duplicate), CheckCopies(_)) =>
      if duplicate || total - ActiveCount(db, None, book) <= 0 then (db, Idle) else (db, Passed(user, book, stamp))
    case (Passed(user, book, stamp), InsertRow(_)) =>
      if user in db.users && book in db.books then (Insert(db, user, book, stamp), Idle) else (db, Idle)
    case _ => (db, slot)
  }

  function Act(c: Config, a: Action): Config {
    if a.Other? then c.(db := Execute(c.db, a.command).0)
    else if a.slot < |c.slots| then
      var (db, slot) := Advance(c.db, c.slots[a.slot], a);
      Config(db, c.slots[a.slot := slot])
    else c
  }

  /** The configuration reached by a schedule of actions, at most `k` creates being in flight. */
  function Reach(t0: int, k: nat, acts: seq<Action>): (c: Config)
    ensures |c.slots| == k
  {
    if acts == [] then Config(EmptyDatabase(t0), IdleSlots(k))
    else Act(Reach(t0, k, acts[..|acts| - 1]), acts[|acts| - 1])
  }

  /** `h` is at least every total the book had along the schedule: its high-water mark or more. */
  ghost predicate NeverAbove(t0: int, k: nat, acts: seq<Action>, book: nat, h: nat) {
    forall n | 0 <= n <= |acts| :: Copies(Reach(t0, k, acts[..n]).db, book) <= h
  }

  lemma {:induction false} Extend(t0: int, k: nat, acts: seq<Action>, a: Action, book: nat, h: nat)
    requires NeverAbove(t0, k, acts, book, h)
    requires Copies(Act(Reach(t0, k, acts), a).db, book) <= h
    ensures Reach(t0, k, acts + [a]) == Act(Reach(t0, k, acts), a)
    ensures NeverAbove(t0, k, acts + [a], book, h)
  {
    var longer := acts + [a];
    assert longer[..|longer| - 1] == acts;
    forall n | 0 <= n <= |longer| ensures Copies(Reach(t0, k, longer[..n]).db, book) <= h {
      if n <= |acts| { assert longer[..n] == acts[..n]; } else { assert longer[..n] == longer; }
    }
  }

  /** Whatever is interleaved, keys stay unique and every stored borrowing has its user and book. */
  lemma {:induction false} ReachIsWellFormed(t0: int, k: nat, acts: seq<Action>)
    ensures WellFormed(Reach(t0, k, acts).db)
  {
    if acts == [] {
    } else {
      ReachIsWellFormed(t0, k, acts[..|acts| - 1]);
      var c, a := Reach(t0, k, acts[..|acts| - 1]), acts[|acts| - 1];
      if a.Other? { ExecuteKeepsWellFormed(c.db, a.command); }
    }
  }

  /** Once the book is loaded, no update of it changes what either validator decides: the total compared is the loaded one. */
  lemma UpdateKeepsOutcome(c: Config, slot: nat, update: Command, a: Action)
    requires slot < |c.slots| && (c.slots[slot].Loaded? || c.slots[slot].Checked?)
    requires update.UpdateBook? && a in {CheckDuplicate(slot), CheckCopies(slot)}
    ensures Act(Act(c, Other(update)), a).slots == Act(c, a).slots
  {
  }

  function PassedFor(book: nat): Slot -> bool { (s: Slot) => s.Passed? && s.book == book }

  /** Creates of one pair that did not see a duplicate and have not been refused since. */
  function PendingPair(user: nat, book: nat): Slot -> bool {
    (s: Slot) => ((s.Checked? && !s.duplicate) || s.Passed?) && s.user == user && s.book == book
  }

  function InFlightFor(book: nat): Slot -> bool { (s: Slot) => !s.Idle? && s.book == book }

  function InFlightPair(user: nat, book: nat): Slot -> bool { (s: Slot) => !s.Idle? && s.book == book && s.user == user }

  /** Along the schedule at most `m` slots at a time were of one kind. */
  ghost predicate NeverMore(t0: int, k: nat, acts: seq<Action>, kind: Slot -> bool, m: nat) {
    forall n | 0 <= n <= |acts| :: Count(Reach(t0, k, acts[..n]).slots, kind) <= m
  }

  lemma NeverMoreThanSlots(t0: int, k: nat, acts: seq<Action>, kind: Slot -> bool)
    ensures NeverMore(t0, k, acts, kind, k)
  {
    forall n | 0 <= n <= |acts| ensures Count(Reach(t0, k, acts[..n]).slots, kind) <= k {
      CountAtMostLength(Reach(t0, k, acts[..n]).slots, kind);
    }
  }

  ghost predicate LoadedBelow(slots: seq<Slot>, book: nat, h: nat) {
    forall i | 0 <= i < |slots| :: (slots[i].Loaded? || slots[i].Checked?) && slots[i].book == book ==> slots[i].total <= h
  }

  ghost predicate WithinBound(c: Config, book: nat, h: nat, m: nat) {
    && LoadedBelow(c.slots, book, h)
    && ActiveCount(c.db, None, book) + Count(c.slots, PassedFor(book)) <= h + m - 1
  }

  lemma ActKeepsBound(c: Config, a: Action, book: nat, h: nat, m: nat)
    requires WithinBound(c, book, h, m) && Copies(c.db, book) <= h
    requires Count(Act(c, a).slots, InFlightFor(book)) <= m
    ensures WithinBound(Act(c, a), book, h, m)
  {
    if a.Other? {
      CommandsNeverActivate(c.db, a.command, None, book);
    } else if a.slot < |c.slots| {
      var slot := c.slots[a.slot];
      var (db, next) := Advance(c.db, slot, a);
      CountReplace(c.slots, a.slot, next, PassedFor(book));
      CountImplied(c.slots[a.slot := next], PassedFor(book), InFlightFor(book));
      if slot.Passed? && a.InsertRow? {
        InsertCounts(c.db, slot.user, slot.book, slot.stamp, None, book);
      }
    }
  }

  lemma {:induction false} BoundAlong(t0: int, k: nat, acts: seq<Action>, book: nat, h: nat, m: nat)
    requires m >= 1
    requires NeverAbove(t0, k, acts, book, h) && NeverMore(t0, k, acts, InFlightFor(book), m)
    ensures WithinBound(Reach(t0, k, acts), book, h, m)
  {
    assert acts[..|acts|] == acts;
    if acts == [] {
      CountZero(IdleSlots(k), PassedFor(book));
    } else {
      var before := acts[..|acts| - 1];
      assert forall n | 0 <= n <= |before| :: before[..n] == acts[..n];
      BoundAlong(t0, k, before, book, h, m);
      assert before[..|before|] == before;
      ActKeepsBound(Reach(t0, k, before), acts[|acts| - 1], book, h, m);
    }
  }

  /**
   The active loans of a book, together with the creates about to insert one
   more, never exceed its high-water mark by more than `m - 1`, where `m` creates
   of that book at most overlap, although the check compares with the total
   loaded earlier. Creates of other books and all other requests may overlap at will.
   */
  lemma {:induction false} Overshoot(t0: int, k: nat, acts: seq<Action>, book: nat, h: nat, m: nat)
    requires m >= 1
    requires NeverAbove(t0, k, acts, book, h) && NeverMore(t0, k, acts, InFlightFor(book), m)
    ensures var c := Reach(t0, k, acts);
      ActiveCount(c.db, None, book) + Count(c.slots, PassedFor(book)) <= h + m - 1
  {
    BoundAlong(t0, k, acts, book, h, m);
  }

  /** With `k` creates in flight, whatever they are for, the excess is at most `k - 1`. */
  lemma {:induction false} OvershootOfAll(t0: int, k: nat, acts: seq<Action>, book: nat, h: nat)
    requires k >= 1 && NeverAbove(t0, k, acts, book, h)
    ensures ActiveCount(Reach(t0, k, acts).db, None, book) <= h + k - 1
  {
    NeverMoreThanSlots(t0, k, acts, InFlightFor(book));
    Overshoot(t0, k, acts, book, h, k);
  }

  lemma ActKeepsPair(c: Config, a: Action, user: nat, book: nat, m: nat)
    requires ActiveCount(c.db, Some(user), book) + Count(c.slots, PendingPair(user, book)) <= m
    requires Count(Act(c, a).slots, InFlightPair(user, book)) <= m
    ensures ActiveCount(Act(c, a).db, Some(user), book) + Count(Act(c, a).slots, PendingPair(user, book)) <= m
  {
    if a.Other? {
      CommandsNeverActivate(c.db, a.command, Some(user), book);
    } else if a.slot < |c.slots| {
      var slot := c.slots[a.slot];
      var (db, next) := Advance(c.db, slot, a);
      CountReplace(c.slots, a.slot, next, PendingPair(user, book));
      CountImplied(c.slots[a.slot := next], PendingPair(user, book), InFlightPair(user, book));
      if slot.Passed? && a.InsertRow? {
        InsertCounts(c.db, slot.user, slot.book, slot.stamp, Some(user), book);
      }
    }
  }

  /** The active loans one user holds of one book never exceed the number of that user's creates of it that overlap. */
  lemma {:induction false} PairBound(t0: int, k: nat, acts: seq<Action>, user: nat, book: nat, m: nat)
    requires NeverMore(t0, k, acts, InFlightPair(user, book), m)
    ensures var c := Reach(t0, k, acts);
      ActiveCount(c.db, Some(user), book) + Count(c.slots, PendingPair(user, book)) <= m
  {
    assert acts[..|acts|] == acts;
    if acts == [] {
      CountZero(IdleSlots(k), PendingPair(user, book));
    } else {
      var before := acts[..|acts| - 1];
      assert forall n | 0 <= n <= |before| :: before[..n] == acts[..n];
      PairBound(t0, k, before, user, book, m);
      ActKeepsPair(Reach(t0, k, before), acts[|acts| - 1], user, book, m);
    }
  }
}
