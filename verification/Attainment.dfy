/**
 Both interleaving bounds are tight: one schedule, built here for every number
 of slots and every total, reaches them at once.
 */
module Attainment {
  import opened Wrappers
  import opened Collections
  import opened Schema
  import opened Loans
  import opened Interleaving

  const BOOK: nat := 0
  const LIBRARIAN: nat := 0

  function Reader(n: nat): User { User(Member, seq(n, _ => 'r'), None, None) }
  function Staff(): User { User(Librarian, "s", None, None) }
  function Title(total: nat): Book { Book("t", "a", "g", "i", total) }

  lemma TitleIsValid(total: nat)
    ensures ValidBook(map[], Title(total), None)
  {
    assert 't' in "t" && 'a' in "a" && 'g' in "g" && 'i' in "i";
  }

  /** A librarian and one book on the shelf. */
  function OneBook(t0: int, total: nat): State {
    EmptyDatabase(t0).(users := map[LIBRARIAN := Staff()], nextUser := 1, books := map[BOOK := Title(total)], nextBook := 1)
  }

  /** One book with `total` copies, the librarian and `readers` members. */
  ghost predicate Stocked(c: Config, total: nat, readers: nat) {
    && c.db.books == map[BOOK := Title(total)]
    && (forall u: nat :: u in c.db.users <==> u <= readers)
    && (forall u | u in c.db.users :: c.db.users[u] == if u == LIBRARIAN then Staff() else Reader(u))
    && c.db.nextUser == readers + 1
  }

  /** Hire the librarian, buy the book. */
  lemma Shelve(t0: int, k: nat, total: nat) returns (acts: seq<Action>)
    ensures Reach(t0, k, acts) == Config(OneBook(t0, total), IdleSlots(k))
    ensures NeverAbove(t0, k, acts, BOOK, total)
  {
    var register, shelve := Other(Register(Staff())), Other(CreateBook(LIBRARIAN, Title(total)));
    var c0 := Config(EmptyDatabase(t0), IdleSlots(k));
    var c1 := Act(c0, register);
    acts := [];
    assert forall n | 0 <= n <= |acts| :: acts[..n] == [];
    Extend(t0, k, acts, register, BOOK, total);
    acts := acts + [register];
    TitleIsValid(total);
    assert c1.db == EmptyDatabase(t0).(users := map[LIBRARIAN := Staff()], nextUser := 1);
    assert Refusal(c1.db, shelve.command) == None;
    assert Act(c1, shelve) == Config(OneBook(t0, total), IdleSlots(k));
    Extend(t0, k, acts, shelve, BOOK, total);
    acts := acts + [shelve];
  }

  lemma ReaderIsNew(c: Config, total: nat, readers: nat)
    requires Stocked(c, total, readers)
    ensures !EmailTaken(c.db.users, Reader(readers + 1).email, None)
  {
    assert Staff().email[0] == 's' && Reader(readers + 1).email[0] == 'r';
    forall u | u in c.db.users && u != LIBRARIAN ensures c.db.users[u].email != Reader(readers + 1).email {
      assert |Reader(u).email| == u;
    }
  }

  /** Then register the readers, one by one. */
  lemma {:induction false} Stock(t0: int, k: nat, total: nat, readers: nat) returns (acts: seq<Action>)
    ensures var c := Reach(t0, k, acts);
      Stocked(c, total, readers) && c.db.loans == [] && c.slots == IdleSlots(k)
    ensures NeverAbove(t0, k, acts, BOOK, total)
  {
    if readers == 0 {
      acts := Shelve(t0, k, total);
    } else {
      acts := Stock(t0, k, total, readers - 1);
      ReaderIsNew(Reach(t0, k, acts), total, readers - 1);
      Extend(t0, k, acts, Other(Register(Reader(readers))), BOOK, total);
      acts := acts + [Other(Register(Reader(readers)))];
    }
  }

  /** `n` readers, one after the other, borrow through slot 0. */
  lemma {:induction false} BorrowInTurn(t0: int, k: nat, total: nat, readers: nat, n: nat) returns (acts: seq<Action>)
    requires k >= 1 && n <= readers && n <= total
    ensures var c := Reach(t0, k, acts);
      && Stocked(c, total, readers) && c.slots == IdleSlots(k)
      && ActiveCount(c.db, None, BOOK) == n
      && forall u | u > n :: ActiveCount(c.db, Some(u), BOOK) == 0
    ensures NeverAbove(t0, k, acts, BOOK, total)
  {
    if n == 0 {
      acts := Stock(t0, k, total, readers);
    } else {
      acts := BorrowInTurn(t0, k, total, readers, n - 1);
      var c := Reach(t0, k, acts);
      acts := Pass(t0, k, acts, total, readers, 0, n);
      var passed := Reach(t0, k, acts);
      Extend(t0, k, acts, InsertRow(0), BOOK, total);
      acts := acts + [InsertRow(0)];
      InsertCounts(passed.db, n, BOOK, passed.slots[0].stamp, None, BOOK);
      forall u | u > n ensures ActiveCount(Reach(t0, k, acts).db, Some(u), BOOK) == 0 {
        InsertCounts(passed.db, n, BOOK, passed.slots[0].stamp, Some(u), BOOK);
      }
      assert Reach(t0, k, acts).slots == IdleSlots(k);
    }
  }

  /** A create that finds no duplicate and a free copy passes all its checks. */
  lemma Pass(t0: int, k: nat, acts: seq<Action>, total: nat, readers: nat, slot: nat, user: nat) returns (longer: seq<Action>)
    requires slot < k && user <= readers
    requires var c := Reach(t0, k, acts);
      && Stocked(c, total, readers) && c.slots[slot] == Idle
      && ActiveCount(c.db, None, BOOK) < total && ActiveCount(c.db, Some(user), BOOK) == 0
    requires NeverAbove(t0, k, acts, BOOK, total)
    ensures var c := Reach(t0, k, acts);
      Reach(t0, k, longer) == c.(slots := c.slots[slot := Passed(user, BOOK, c.db.now)])
    ensures NeverAbove(t0, k, longer, BOOK, total)
  {
    var c := Reach(t0, k, acts);
    Extend(t0, k, acts, Load(slot, user, BOOK), BOOK, total);
    longer := acts + [Load(slot, user, BOOK)];
    Extend(t0, k, longer, CheckDuplicate(slot), BOOK, total);
    longer := longer + [CheckDuplicate(slot)];
    Extend(t0, k, longer, CheckCopies(slot), BOOK, total);
    longer := longer + [CheckCopies(slot)];
  }

  ghost predicate FirstPassed(slots: seq<Slot>, n: nat, user: nat) {
    && n <= |slots|
    && (forall i | 0 <= i < n :: slots[i].Passed? && slots[i].user == user && slots[i].book == BOOK)
    && (forall i | n <= i < |slots| :: slots[i] == Idle)
  }

  /** The last copy is left; `n` creates of the same reader all pass before any inserts. */
  lemma {:induction false} PassTogether(t0: int, k: nat, total: nat, n: nat) returns (acts: seq<Action>)
    requires k >= 1 && total >= 1 && n <= k
    ensures var c := Reach(t0, k, acts);
      && Stocked(c, total, total) && FirstPassed(c.slots, n, total)
      && ActiveCount(c.db, None, BOOK) == total - 1 && ActiveCount(c.db, Some(total), BOOK) == 0
    ensures NeverAbove(t0, k, acts, BOOK, total)
  {
    if n == 0 {
      acts := BorrowInTurn(t0, k, total, total, total - 1);
    } else {
      acts := PassTogether(t0, k, total, n - 1);
      acts := Pass(t0, k, acts, total, total, n - 1, total);
    }
  }

  ghost predicate LastPassed(slots: seq<Slot>, n: nat, user: nat) {
    forall i | n <= i < |slots| :: slots[i].Passed? && slots[i].user == user && slots[i].book == BOOK
  }

  /** A passed create inserts its row, whatever the copies are by now. */
  lemma InsertPassed(c: Config, slot: nat, user: nat, total: nat)
    requires slot < |c.slots| && c.slots[slot].Passed? && c.slots[slot].user == user && c.slots[slot].book == BOOK
    requires Stocked(c, total, total) && user <= total
    ensures var next := Act(c, InsertRow(slot));
      && Stocked(next, total, total) && next.slots == c.slots[slot := Idle]
      && ActiveCount(next.db, None, BOOK) == ActiveCount(c.db, None, BOOK) + 1
      && ActiveCount(next.db, Some(user), BOOK) == ActiveCount(c.db, Some(user), BOOK) + 1
  {
    InsertCounts(c.db, user, BOOK, c.slots[slot].stamp, None, BOOK);
    InsertCounts(c.db, user, BOOK, c.slots[slot].stamp, Some(user), BOOK);
  }

  lemma {:induction false} InsertTogether(t0: int, k: nat, total: nat, n: nat) returns (acts: seq<Action>)
    requires k >= 1 && total >= 1 && n <= k
    ensures var c := Reach(t0, k, acts);
      && Stocked(c, total, total) && LastPassed(c.slots, n, total)
      && ActiveCount(c.db, None, BOOK) == total - 1 + n && ActiveCount(c.db, Some(total), BOOK) == n
    ensures NeverAbove(t0, k, acts, BOOK, total)
  {
    if n == 0 {
      acts := PassTogether(t0, k, total, k);
    } else {
      acts := InsertTogether(t0, k, total, n - 1);
      InsertPassed(Reach(t0, k, acts), n - 1, total, total);
      Extend(t0, k, acts, InsertRow(n - 1), BOOK, total);
      acts := acts + [InsertRow(n - 1)];
    }
  }

  /** For every `k` and every total of at least 1 some schedule overshoots by exactly `k - 1` and gives one reader `k` active loans. */
  lemma BoundsAreAttained(t0: int, k: nat, total: nat)
    requires k >= 1 && total >= 1
    ensures exists acts, user: nat ::
      && NeverAbove(t0, k, acts, BOOK, total)
      && ActiveCount(Reach(t0, k, acts).db, None, BOOK) == total + k - 1
      && ActiveCount(Reach(t0, k, acts).db, Some(user), BOOK) == k
  {
    var acts := InsertTogether(t0, k, total, k);
    assert NeverAbove(t0, k, acts, BOOK, total);
    assert ActiveCount(Reach(t0, k, acts).db, Some(total), BOOK) == k;
  }

  /** No schedule over-lends by more than `d` if and only if at most `d + 1` creates can be in flight; by none, if at most one. */
  lemma ExcessExactly(t0: int, k: nat, d: nat)
    ensures (forall acts, book: nat, h: nat ::
              NeverAbove(t0, k, acts, book, h) ==> ActiveCount(Reach(t0, k, acts).db, None, book) <= h + d) <==> k <= d + 1
  {
    if k <= d + 1 {
      forall acts, book: nat, h: nat | NeverAbove(t0, k, acts, book, h)
        ensures ActiveCount(Reach(t0, k, acts).db, None, book) <= h + d
      {
        NeverMoreThanSlots(t0, k, acts, InFlightFor(book));
        Overshoot(t0, k, acts, book, h, if k == 0 then 1 else k);
      }
    } else {
      BoundsAreAttained(t0, k, 1);
    }
  }

  /** No schedule gives any user more than `d` active loans of a book if and only if at most `d` creates can be in flight. */
  lemma RepeatsExactly(t0: int, k: nat, d: nat)
    ensures (forall acts, user: nat, book: nat :: ActiveCount(Reach(t0, k, acts).db, Some(user), book) <= d) <==> k <= d
  {
    if k <= d {
      forall acts, user: nat, book: nat ensures ActiveCount(Reach(t0, k, acts).db, Some(user), book) <= d {
        NeverMoreThanSlots(t0, k, acts, InFlightPair(user, book));
        PairBound(t0, k, acts, user, book, k);
      }
    } else {
      BoundsAreAttained(t0, k, 1);
    }
  }
}
