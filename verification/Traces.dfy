/**
 Where a stored borrowing comes from: the moments at which its create read each
 thing it depended on.
 */
module Traces {
  import opened Wrappers
  import opened Collections
  import opened Schema
  import opened Loans
  import opened Responses
  import opened Interleaving
  import Histories

  /** The positions in a schedule of one create's first three actions, and the total it loaded. */
  datatype Moments = Moments(slot: nat, load: nat, look: nat, count: nat, total: int)

  /** The database before action `n` of a schedule. */
  function At(t0: int, k: nat, acts: seq<Action>, n: nat): State
    requires n <= |acts|
  {
    Reach(t0, k, acts[..n]).db
  }

  /** It loaded the book with the total the book had then. */
  ghost predicate LoadedBy(t0: int, k: nat, acts: seq<Action>, m: Moments, user: nat, book: nat) {
    && m.load < |acts| && acts[m.load] == Load(m.slot, user, book)
    && var db := At(t0, k, acts, m.load);
       user in db.users && book in db.books && m.total == db.books[book].totalCopies
  }

  /** Later it took the time and looked for an active loan of the pair. */
  ghost predicate LookedBy(t0: int, k: nat, acts: seq<Action>, m: Moments, user: nat, book: nat, stamp: int, duplicate: bool) {
    && m.load < m.look < |acts| && acts[m.look] == CheckDuplicate(m.slot)
    && var db := At(t0, k, acts, m.look);
       stamp == db.now && (duplicate <==> HoldsActive(db.loans, user, book))
  }

  /** Later still it found fewer active loans of the book than the total it had loaded. */
  ghost predicate CountedBy(t0: int, k: nat, acts: seq<Action>, m: Moments, book: nat) {
    m.look < m.count < |acts| && acts[m.count] == CheckCopies(m.slot) && Lent(At(t0, k, acts, m.count).loans, book) < m.total
  }

  ghost predicate PassedBy(t0: int, k: nat, acts: seq<Action>, m: Moments, user: nat, book: nat, stamp: int) {
    && LoadedBy(t0, k, acts, m, user, book)
    && LookedBy(t0, k, acts, m, user, book, stamp, false)
    && CountedBy(t0, k, acts, m, book)
  }

  /** From its load until `n` the slot was never idle, so all it did was for this create. */
  ghost predicate Held(t0: int, k: nat, acts: seq<Action>, m: Moments, n: nat) {
    && m.slot < k && n <= |acts|
    && forall i: nat | m.load < i <= n :: !Reach(t0, k, acts[..i]).slots[m.slot].Idle?
  }

  /** What a slot holds is explained by the actions of the create it holds. */
  ghost predicate Explains(t0: int, k: nat, acts: seq<Action>, m: Moments, at: Slot) {
    && Held(t0, k, acts, m, |acts|)
    && match at
       case Idle => true
       case Loaded(user, book, total) => LoadedBy(t0, k, acts, m, user, book) && total == m.total
       case Checked(user, book, total, stamp, duplicate) =>
         LoadedBy(t0, k, acts, m, user, book) && LookedBy(t0, k, acts, m, user, book, stamp, duplicate) && total == m.total
       case Passed(user, book, stamp) => PassedBy(t0, k, acts, m, user, book, stamp)
  }

  ghost predicate SlotTraced(t0: int, k: nat, acts: seq<Action>, slot: nat, at: Slot) {
    at.Idle? || exists m: Moments :: m.slot == slot && Explains(t0, k, acts, m, at)
  }

  /** The row was inserted at `n` for that create, while its user and book existed, and is due 14 days after its stamp. */
  ghost predicate InsertedBy(t0: int, k: nat, acts: seq<Action>, m: Moments, n: nat, r: Borrowing) {
    && m.count < n < |acts| && acts[n] == InsertRow(m.slot) && Held(t0, k, acts, m, n)
    && PassedBy(t0, k, acts, m, r.userId, r.bookId, r.borrowedAt)
    && var db := At(t0, k, acts, n);
       r.userId in db.users && r.bookId in db.books && r.id == db.nextLoan && r.dueDate == Day(r.borrowedAt) + 14
  }

  ghost predicate RowTraced(t0: int, k: nat, acts: seq<Action>, r: Borrowing) {
    exists m: Moments, n: nat :: InsertedBy(t0, k, acts, m, n, r)
  }

  // What happened stays happened

  lemma SameBefore(t0: int, k: nat, acts: seq<Action>, a: Action)
    ensures forall n: nat | n <= |acts| :: (acts + [a])[..n] == acts[..n]
    ensures (acts + [a])[..|acts| + 1] == acts + [a]
    ensures Reach(t0, k, acts + [a]) == Act(Reach(t0, k, acts), a)
  {
    assert (acts + [a])[..|acts + [a]| - 1] == acts;
  }

  lemma PassedStays(t0: int, k: nat, acts: seq<Action>, a: Action, m: Moments, user: nat, book: nat, stamp: int)
    requires PassedBy(t0, k, acts, m, user, book, stamp)
    ensures PassedBy(t0, k, acts + [a], m, user, book, stamp)
  {
    SameBefore(t0, k, acts, a);
  }

  lemma HeldStays(t0: int, k: nat, acts: seq<Action>, a: Action, m: Moments, n: nat)
    requires Held(t0, k, acts, m, n)
    ensures Held(t0, k, acts + [a], m, n)
  {
    SameBefore(t0, k, acts, a);
  }

  lemma HeldLonger(t0: int, k: nat, acts: seq<Action>, a: Action, m: Moments)
    requires Held(t0, k, acts, m, |acts|) && !Act(Reach(t0, k, acts), a).slots[m.slot].Idle?
    ensures Held(t0, k, acts + [a], m, |acts| + 1)
  {
    HeldStays(t0, k, acts, a, m, |acts|);
    SameBefore(t0, k, acts, a);
  }

  lemma ExplanationStays(t0: int, k: nat, acts: seq<Action>, a: Action, m: Moments, at: Slot)
    requires Explains(t0, k, acts, m, at) && !at.Idle? && !Act(Reach(t0, k, acts), a).slots[m.slot].Idle?
    ensures Explains(t0, k, acts + [a], m, at)
  {
    SameBefore(t0, k, acts, a);
    HeldLonger(t0, k, acts, a, m);
    if at.Passed? { PassedStays(t0, k, acts, a, m, at.user, at.book, at.stamp); }
  }

  lemma SlotStays(t0: int, k: nat, acts: seq<Action>, a: Action, slot: nat, at: Slot)
    requires slot < k && SlotTraced(t0, k, acts, slot, at)
    requires at.Idle? || !Act(Reach(t0, k, acts), a).slots[slot].Idle?
    ensures SlotTraced(t0, k, acts + [a], slot, at)
  {
    if !at.Idle? {
      var m: Moments :| m.slot == slot && Explains(t0, k, acts, m, at);
      ExplanationStays(t0, k, acts, a, m, at);
    }
  }

  lemma RowStays(t0: int, k: nat, acts: seq<Action>, a: Action, r: Borrowing)
    requires RowTraced(t0, k, acts, r)
    ensures RowTraced(t0, k, acts + [a], r)
  {
    var m: Moments, n: nat :| InsertedBy(t0, k, acts, m, n, r);
    SameBefore(t0, k, acts, a);
    HeldStays(t0, k, acts, a, m, n);
    PassedStays(t0, k, acts, a, m, r.userId, r.bookId, r.borrowedAt);
    assert InsertedBy(t0, k, acts + [a], m, n, r);
  }

  // Each action a slot is waiting for adds its own moment

  lemma LoadExplains(t0: int, k: nat, acts: seq<Action>, slot: nat, user: nat, book: nat)
    requires slot < k && Reach(t0, k, acts).slots[slot].Idle?
    ensures var a := Load(slot, user, book);
      SlotTraced(t0, k, acts + [a], slot, Act(Reach(t0, k, acts), a).slots[slot])
  {
    var c, a := Reach(t0, k, acts), Load(slot, user, book);
    SameBefore(t0, k, acts, a);
    assert acts[..|acts|] == acts;
    if user in c.db.users && book in c.db.books {
      var m := Moments(slot, |acts|, 0, 0, c.db.books[book].totalCopies);
      assert Explains(t0, k, acts + [a], m, Act(c, a).slots[slot]);
    }
  }

  lemma LookExplains(t0: int, k: nat, acts: seq<Action>, m: Moments)
    requires m.slot < k && Reach(t0, k, acts).slots[m.slot].Loaded?
    requires Explains(t0, k, acts, m, Reach(t0, k, acts).slots[m.slot])
    ensures var a := CheckDuplicate(m.slot);
      Explains(t0, k, acts + [a], m.(look := |acts|), Act(Reach(t0, k, acts), a).slots[m.slot])
  {
    var c, a := Reach(t0, k, acts), CheckDuplicate(m.slot);
    SameBefore(t0, k, acts, a);
    HeldLonger(t0, k, acts, a, m);
    ActiveSpelledOut(c.db, c.slots[m.slot].user, c.slots[m.slot].book);
    assert acts[..|acts|] == acts;
    var Loaded(user, book, total) := c.slots[m.slot];
    assert Held(t0, k, acts + [a], m.(look := |acts|), |acts| + 1);
    assert LoadedBy(t0, k, acts + [a], m.(look := |acts|), user, book);
  }

  lemma CountExplains(t0: int, k: nat, acts: seq<Action>, m: Moments, user: nat, book: nat, stamp: int)
    requires m.slot < k && Reach(t0, k, acts).slots[m.slot] == Checked(user, book, m.total, stamp, false)
    requires Explains(t0, k, acts, m, Reach(t0, k, acts).slots[m.slot])
    requires Lent(Reach(t0, k, acts).db.loans, book) < m.total
    ensures Explains(t0, k, acts + [CheckCopies(m.slot)], m.(count := |acts|), Passed(user, book, stamp))
  {
    var c, a, m' := Reach(t0, k, acts), CheckCopies(m.slot), m.(count := |acts|);
    SameBefore(t0, k, acts, a);
    ActiveSpelledOut(c.db, user, book);
    HeldLonger(t0, k, acts, a, m);
    assert acts[..|acts|] == acts;
    assert Held(t0, k, acts + [a], m', |acts| + 1);
    assert LoadedBy(t0, k, acts + [a], m', user, book) && LookedBy(t0, k, acts + [a], m', user, book, stamp, false);
  }

  lemma CopiesOutcome(c: Config, slot: nat)
    requires slot < |c.slots| && c.slots[slot].Checked?
    ensures var Checked(user, book, total, stamp, duplicate) := c.slots[slot];
      Act(c, CheckCopies(slot)).slots[slot] ==
        if duplicate || total <= Lent(c.db.loans, book) then Idle else Passed(user, book, stamp)
  {
    ActiveSpelledOut(c.db, c.slots[slot].user, c.slots[slot].book);
  }

  lemma CheckCopiesTraced(t0: int, k: nat, acts: seq<Action>, slot: nat)
    requires slot < k && Reach(t0, k, acts).slots[slot].Checked?
    requires SlotTraced(t0, k, acts, slot, Reach(t0, k, acts).slots[slot])
    ensures var a := CheckCopies(slot);
      SlotTraced(t0, k, acts + [a], slot, Act(Reach(t0, k, acts), a).slots[slot])
  {
    var c := Reach(t0, k, acts);
    var at := c.slots[slot];
    var m: Moments :| m.slot == slot && Explains(t0, k, acts, m, at);
    CopiesOutcome(c, slot);
    if !at.duplicate && Lent(c.db.loans, at.book) < at.total {
      CountExplains(t0, k, acts, m, at.user, at.book, at.stamp);
    }
  }

  /** The action its slot is waiting for. */
  predicate Due(at: Slot, a: Action) {
    || (at.Idle? && a.Load?) || (at.Loaded? && a.CheckDuplicate?)
    || (at.Checked? && a.CheckCopies?) || (at.Passed? && a.InsertRow?)
  }

  lemma OthersAreIgnored(c: Config, a: Action)
    requires !a.Other? && a.slot < |c.slots| && !Due(c.slots[a.slot], a)
    ensures Act(c, a) == c
  {
  }

  lemma InsertedIsIdle(c: Config, slot: nat)
    requires slot < |c.slots| && c.slots[slot].Passed?
    ensures Act(c, InsertRow(slot)).slots[slot] == Idle
  {
  }

  lemma AdvanceTraced(t0: int, k: nat, acts: seq<Action>, a: Action)
    requires !a.Other? && a.slot < k
    requires SlotTraced(t0, k, acts, a.slot, Reach(t0, k, acts).slots[a.slot])
    ensures SlotTraced(t0, k, acts + [a], a.slot, Act(Reach(t0, k, acts), a).slots[a.slot])
  {
    var c, slot := Reach(t0, k, acts), a.slot;
    if !Due(c.slots[slot], a) {
      OthersAreIgnored(c, a);
      SlotStays(t0, k, acts, a, slot, c.slots[slot]);
    } else {
      match a
      case Load(_, user, book) => LoadExplains(t0, k, acts, slot, user, book);
      case CheckDuplicate(_) =>
        var m: Moments :| m.slot == slot && Explains(t0, k, acts, m, c.slots[slot]);
        LookExplains(t0, k, acts, m);
      case CheckCopies(_) => CheckCopiesTraced(t0, k, acts, slot);
      case InsertRow(_) => InsertedIsIdle(c, slot);
    }
  }

  lemma {:induction false} SlotsTraced(t0: int, k: nat, acts: seq<Action>, slot: nat)
    requires slot < k
    ensures SlotTraced(t0, k, acts, slot, Reach(t0, k, acts).slots[slot])
  {
    if acts == [] {
    } else {
      var before, a := acts[..|acts| - 1], acts[|acts| - 1];
      assert before + [a] == acts;
      SlotsTraced(t0, k, before, slot);
      if !a.Other? && a.slot == slot {
        AdvanceTraced(t0, k, before, a);
      } else {
        SlotStays(t0, k, before, a, slot, Reach(t0, k, before).slots[slot]);
      }
    }
  }

  // Rows

  lemma LaterTraced(t0: int, k: nat, acts: seq<Action>, q: Borrowing, r: Borrowing)
    requires RowTraced(t0, k, acts, q) && Histories.Later(q, r)
    ensures RowTraced(t0, k, acts, r)
  {
    var m: Moments, n: nat :| InsertedBy(t0, k, acts, m, n, q);
    assert InsertedBy(t0, k, acts, m, n, r);
  }

  /** Keys and dates of a row are never rewritten: a row seen after a command was there before it. */
  lemma CommandKeepsRows(db: State, c: Command, r: Borrowing) returns (q: Borrowing)
    requires WellFormed(db) && r in Execute(db, c).0.loans
    ensures q in db.loans && Histories.Later(q, r)
  {
    ExecuteKeepsWellFormed(db, c);
    Histories.StepDescends(db, Do(c));
    assert Execute(db, c).0.nextLoan == db.nextLoan;
    q :| q in db.loans && Histories.Later(q, r);
  }

  /** The one row an insertion adds. */
  lemma OnlyRowInserted(c: Config, slot: nat, r: Borrowing)
    requires slot < |c.slots| && r in Act(c, InsertRow(slot)).db.loans && r !in c.db.loans
    ensures c.slots[slot] == Passed(r.userId, r.bookId, r.borrowedAt)
    ensures r.userId in c.db.users && r.bookId in c.db.books && r.id == c.db.nextLoan && r.dueDate == Day(r.borrowedAt) + 14
  {
    assert Day(r.borrowedAt + LOAN_DAYS * MS_PER_DAY) == Day(r.borrowedAt) + 14;
  }

  lemma InsertionExplained(t0: int, k: nat, acts: seq<Action>, m: Moments, r: Borrowing)
    requires Explains(t0, k, acts, m, Passed(r.userId, r.bookId, r.borrowedAt))
    requires var db := Reach(t0, k, acts).db;
      r.userId in db.users && r.bookId in db.books && r.id == db.nextLoan && r.dueDate == Day(r.borrowedAt) + 14
    ensures InsertedBy(t0, k, acts + [InsertRow(m.slot)], m, |acts|, r)
  {
    var a := InsertRow(m.slot);
    SameBefore(t0, k, acts, a);
    HeldStays(t0, k, acts, a, m, |acts|);
    PassedStays(t0, k, acts, a, m, r.userId, r.bookId, r.borrowedAt);
    assert acts[..|acts|] == acts;
  }

  lemma InsertTraced(t0: int, k: nat, acts: seq<Action>, slot: nat, r: Borrowing)
    requires slot < k && r in Act(Reach(t0, k, acts), InsertRow(slot)).db.loans
    requires r !in Reach(t0, k, acts).db.loans
    ensures RowTraced(t0, k, acts + [InsertRow(slot)], r)
  {
    OnlyRowInserted(Reach(t0, k, acts), slot, r);
    SlotsTraced(t0, k, acts, slot);
    var m: Moments :| m.slot == slot && Explains(t0, k, acts, m, Passed(r.userId, r.bookId, r.borrowedAt));
    InsertionExplained(t0, k, acts, m, r);
  }

  /**
   On every schedule every stored borrowing goes back to a create of its user and
   book that loaded the book, then found no active loan of the pair, then fewer
   active loans than the total it had loaded, and then inserted the row.
   */
  lemma {:induction false} EveryLoanHasItsCreate(t0: int, k: nat, acts: seq<Action>)
    ensures forall r | r in Reach(t0, k, acts).db.loans :: RowTraced(t0, k, acts, r)
  {
    if acts == [] {
    } else {
      var before, a := acts[..|acts| - 1], acts[|acts| - 1];
      assert before + [a] == acts;
      EveryLoanHasItsCreate(t0, k, before);
      forall r | r in Reach(t0, k, acts).db.loans ensures RowTraced(t0, k, acts, r) {
        if r in Reach(t0, k, before).db.loans {
          RowStays(t0, k, before, a, r);
        } else if a.Other? {
          ReachIsWellFormed(t0, k, before);
          var q := CommandKeepsRows(Reach(t0, k, before).db, a.command, r);
          LaterTraced(t0, k, before, q, r);
          RowStays(t0, k, before, a, r);
        } else {
          InsertTraced(t0, k, before, a.slot, r);
        }
      }
    }
  }
}
