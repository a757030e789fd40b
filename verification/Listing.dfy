/**
 GET /borrowings: filters, order with the id tie-break, and pages of 25.
 */
module Listing {
  import opened Wrappers
  import opened Collections
  import opened Schema
  import opened Sorting
  import opened TextSearch
  import CanBorrow

  datatype SortKey = ByBorrowedAt | ByDueDate
  datatype Direction = Asc | Desc
  datatype Order = Order(key: SortKey, direction: Direction)

  /** The parsed parameters; `q` is stripped, `page` unclamped. */
  datatype Query = Query(status: Option<Status>, q: string, date: Option<int>, sort: SortKey, direction: Option<Direction>, page: int)

  const PER_PAGE: nat := 25

  function KeyOf(key: SortKey, r: Borrowing): int { if key == ByDueDate then r.dueDate else r.borrowedAt }

  /** `x` is listed before `y`. */
  predicate Before(order: Order, x: Borrowing, y: Borrowing) {
    var a, b := KeyOf(order.key, x), KeyOf(order.key, y);
    if order.direction == Asc then a < b || (a == b && x.id < y.id) else a > b || (a == b && x.id > y.id)
  }

  function NotAfter(order: Order): (Borrowing, Borrowing) -> bool { (x: Borrowing, y: Borrowing) => !Before(order, y, x) }

  function BeforeRow(order: Order, r: Borrowing): Borrowing -> bool { (x: Borrowing) => Before(order, x, r) }

  /** The order used when the request names no direction. */
  function OrderOf(query: Query): Order {
    var default := if query.sort == ByDueDate then Asc else Desc;
    Order(query.sort, if query.direction.Some? then query.direction.value else default)
  }

  /** The order a request asks for, column by column: due date ascending or borrowing time descending unless it says otherwise. */
  ghost predicate InOrder(rows: seq<Borrowing>, sort: SortKey, direction: Option<Direction>) {
    forall i, j | 0 <= i < j < |rows| ::
      var x, y := rows[i], rows[j];
      match (sort, direction)
      case (ByDueDate, Some(Desc)) => x.dueDate > y.dueDate || (x.dueDate == y.dueDate && x.id > y.id)
      case (ByDueDate, _) => x.dueDate < y.dueDate || (x.dueDate == y.dueDate && x.id < y.id)
      case (ByBorrowedAt, Some(Asc)) => x.borrowedAt < y.borrowedAt || (x.borrowedAt == y.borrowedAt && x.id < y.id)
      case (ByBorrowedAt, _) => x.borrowedAt > y.borrowedAt || (x.borrowedAt == y.borrowedAt && x.id > y.id)
  }

  lemma BeforeInOrder(rows: seq<Borrowing>, query: Query)
    requires forall i, j | 0 <= i < j < |rows| :: Before(OrderOf(query), rows[i], rows[j])
    ensures InOrder(rows, query.sort, query.direction)
  {
  }

  function OwnedBy(user: nat): Borrowing -> bool { (r: Borrowing) => r.userId == user }
  function HasStatus(st: Status): Borrowing -> bool { (r: Borrowing) => r.status == st }
  function BorrowedOn(day: int): Borrowing -> bool { (r: Borrowing) => Day(r.borrowedAt) == day }

  function ByStatus(p: Borrowing -> bool, st: Option<Status>): Borrowing -> bool {
    (r: Borrowing) => p(r) && (st.Some? ==> r.status == st.value)
  }

  function ByText(p: Borrowing -> bool, q: string, hit: Borrowing -> bool): Borrowing -> bool {
    (r: Borrowing) => p(r) && (q != "" ==> hit(r))
  }

  function ByDate(p: Borrowing -> bool, date: Option<int>): Borrowing -> bool {
    (r: Borrowing) => p(r) && (date.Some? ==> Day(r.borrowedAt) == date.value)
  }

  function VisibleTo(s: State, viewer: nat): Borrowing -> bool {
    (r: Borrowing) => IsLibrarian(s, viewer) || r.userId == viewer
  }

  /** What a request asks for: the rows its viewer may see that pass every filter given. */
  function Selected(fold: char -> char, s: State, viewer: nat, query: Query): Borrowing -> bool {
    (r: Borrowing) =>
      && VisibleTo(s, viewer)(r)
      && (query.status.Some? ==> r.status == query.status.value)
      && (query.q != "" ==> Hit(fold, s, query.q)(r))
      && (query.date.Some? ==> Day(r.borrowedAt) == query.date.value)
  }

  /** What `Selected` asks, condition by condition: the viewer's own loans or a librarian, and the filters given. */
  ghost predicate Wanted(fold: char -> char, s: State, viewer: nat, query: Query, r: Borrowing)
    requires viewer in s.users && r.bookId in s.books && r.userId in s.users
  {
    && (s.users[viewer].role == Librarian || r.userId == viewer)
    && (query.status.Some? ==> r.status == query.status.value)
    && (query.date.Some? ==> query.date.value * 86_400_000 <= r.borrowedAt < (query.date.value + 1) * 86_400_000)
    && (query.q != "" ==> FoundInSome(fold, query.q, s.books[r.bookId], s.users[r.userId]))
  }

  lemma SelectedIsWanted(fold: char -> char, s: State, viewer: nat, query: Query, r: Borrowing)
    requires viewer in s.users && r.bookId in s.books && r.userId in s.users
    ensures Selected(fold, s, viewer, query)(r) <==> Wanted(fold, s, viewer, query, r)
  {
    HitExactly(fold, s, query.q, r);
  }

  function Clamp(page: int): int { if page <= 0 then 1 else page }

  function Min(a: int, b: int): int { if a < b then a else b }

  /** LIMIT 25 OFFSET 25 * (page - 1). */
  function Page<T>(list: seq<T>, page: int): seq<T>
    requires page >= 1
  {
    list[Min((page - 1) * PER_PAGE, |list|)..Min(page * PER_PAGE, |list|)]
  }

  /** The whole answer to a query, of which each request shows one page. */
  function Answer(fold: char -> char, s: State, viewer: nat, query: Query): seq<Borrowing> {
    Sort(Filter(s.loans, Selected(fold, s, viewer, query)), NotAfter(OrderOf(query)))
  }

  /** How many selected rows are listed before `r`. */
  ghost function Rank(loans: seq<Borrowing>, selected: Borrowing -> bool, order: Order, r: Borrowing): nat {
    Count(Filter(loans, selected), BeforeRow(order, r))
  }

  // The order is a strict total order on rows with different ids

  lemma OrderIsTotal(order: Order)
    ensures TotalPreorder(NotAfter(order))
  {
  }

  lemma SameIdSameRow(loans: seq<Borrowing>, x: Borrowing, y: Borrowing)
    requires UniqueIds(loans) && x in loans && y in loans && x.id == y.id
    ensures x == y
  {
    var i :| 0 <= i < |loans| && loans[i] == x;
    var j :| 0 <= j < |loans| && loans[j] == y;
    assert i == j;
  }

  lemma IdsBreakTies(order: Order, loans: seq<Borrowing>, sorted: seq<Borrowing>)
    requires UniqueIds(loans) && multiset(sorted) == multiset(loans)
    ensures NoTies(sorted, NotAfter(order))
  {
    forall x, y | x in sorted && y in sorted && NotAfter(order)(x, y) && NotAfter(order)(y, x) ensures x == y {
      assert x in multiset(loans) && y in multiset(loans);
      SameIdSameRow(loans, x, y);
    }
  }

  function IdIs(id: nat): Borrowing -> bool { (r: Borrowing) => r.id == id }

  lemma {:induction false} UniqueIdsCount(loans: seq<Borrowing>, id: nat)
    requires UniqueIds(loans)
    ensures Count(loans, IdIs(id)) <= 1
  {
    if loans == [] {
    } else {
      UniqueIdsCount(loans[1..], id);
      if loans[0].id == id {
        assert forall k | 0 <= k < |loans[1..]| :: loans[1..][k] == loans[k + 1];
        CountZero(loans[1..], IdIs(id));
      }
    }
  }

  lemma {:induction false} CountedIdsAreUnique(loans: seq<Borrowing>)
    requires forall id: nat :: Count(loans, IdIs(id)) <= 1
    ensures UniqueIds(loans)
  {
    if loans == [] {
    } else {
      CountZero(loans[1..], IdIs(loans[0].id));
      assert Count(loans, IdIs(loans[0].id)) <= 1;
      forall id: nat ensures Count(loans[1..], IdIs(id)) <= 1 { assert Count(loans, IdIs(id)) <= 1; }
      CountedIdsAreUnique(loans[1..]);
      assert forall k | 0 < k < |loans| :: loans[k] == loans[1..][k - 1] && loans[1..][k - 1] in loans[1..];
    }
  }

  lemma SameElementsUniqueIds(a: seq<Borrowing>, b: seq<Borrowing>)
    requires multiset(a) == multiset(b) && UniqueIds(a)
    ensures UniqueIds(b)
  {
    forall id: nat ensures Count(b, IdIs(id)) <= 1 {
      UniqueIdsCount(a, id);
      CountPermuted(a, b, IdIs(id));
    }
    CountedIdsAreUnique(b);
  }

  /** The listing does not depend on the order the rows are stored in. */
  lemma StorageOrderIrrelevant(a: seq<Borrowing>, b: seq<Borrowing>, order: Order)
    requires multiset(a) == multiset(b) && UniqueIds(a)
    ensures Sort(a, NotAfter(order)) == Sort(b, NotAfter(order))
  {
    OrderIsTotal(order);
    SortSorts(a, NotAfter(order));
    SortSorts(b, NotAfter(order));
    IdsBreakTies(order, a, Sort(a, NotAfter(order)));
    SortedIsUnique(Sort(a, NotAfter(order)), Sort(b, NotAfter(order)), NotAfter(order));
  }

  /** The descending listing is the ascending one read backwards, ties included. */
  lemma DescendingIsReverse(loans: seq<Borrowing>, key: SortKey)
    requires UniqueIds(loans)
    ensures Sort(loans, NotAfter(Order(key, Desc))) == Reverse(Sort(loans, NotAfter(Order(key, Asc))))
  {
    var asc, desc := NotAfter(Order(key, Asc)), NotAfter(Order(key, Desc));
    OrderIsTotal(Order(key, Asc));
    OrderIsTotal(Order(key, Desc));
    SortSorts(loans, asc);
    SortSorts(loans, desc);
    var up := Sort(loans, asc);
    ReverseElements(up);
    forall i, j | 0 <= i < j < |up| ensures desc(Reverse(up)[i], Reverse(up)[j]) {
      assert asc(up[|up| - 1 - j], up[|up| - 1 - i]);
    }
    IdsBreakTies(Order(key, Desc), loans, Sort(loans, desc));
    SortedIsUnique(Sort(loans, desc), Reverse(up), desc);
  }

  // Position in the listing is rank

  lemma PositionIsRank(list: seq<Borrowing>, order: Order, i: nat)
    requires i < |list|
    requires forall a, b | 0 <= a < b < |list| :: Before(order, list[a], list[b])
    ensures Count(list, BeforeRow(order, list[i])) == i
  {
    CountPrefix(list, i, BeforeRow(order, list[i]));
  }

  // Each optional WHERE of the scope, and all of them together

  lemma OwnRows(s: State, viewer: nat)
    ensures (if IsLibrarian(s, viewer) then s.loans else Filter(s.loans, OwnedBy(viewer))) == Filter(s.loans, VisibleTo(s, viewer))
  {
    if IsLibrarian(s, viewer) {
      FilterAll(s.loans, VisibleTo(s, viewer));
    } else {
      FilterSame(s.loans, OwnedBy(viewer), VisibleTo(s, viewer));
    }
  }

  lemma StatusWhere(loans: seq<Borrowing>, p: Borrowing -> bool, st: Option<Status>)
    ensures var scope := Filter(loans, p);
      (if st.Some? then Filter(scope, HasStatus(st.value)) else scope) == Filter(loans, ByStatus(p, st))
  {
    if st.Some? { FilterTwice(loans, p, HasStatus(st.value), ByStatus(p, st)); } else { FilterSame(loans, p, ByStatus(p, st)); }
  }

  lemma TextWhere(loans: seq<Borrowing>, p: Borrowing -> bool, q: string, hit: Borrowing -> bool)
    ensures var scope := Filter(loans, p);
      (if q != "" then Filter(scope, hit) else scope) == Filter(loans, ByText(p, q, hit))
  {
    if q != "" { FilterTwice(loans, p, hit, ByText(p, q, hit)); } else { FilterSame(loans, p, ByText(p, q, hit)); }
  }

  lemma DateWhere(loans: seq<Borrowing>, p: Borrowing -> bool, date: Option<int>)
    ensures var scope := Filter(loans, p);
      (if date.Some? then Filter(scope, BorrowedOn(date.value)) else scope) == Filter(loans, ByDate(p, date))
  {
    if date.Some? { FilterTwice(loans, p, BorrowedOn(date.value), ByDate(p, date)); } else { FilterSame(loans, p, ByDate(p, date)); }
  }

  /** The conditions one inside the other. */
  function Nested(fold: char -> char, s: State, viewer: nat, query: Query): Borrowing -> bool {
    ByDate(ByText(ByStatus(VisibleTo(s, viewer), query.status), query.q, Hit(fold, s, query.q)), query.date)
  }

  lemma NestedIsSelected(fold: char -> char, s: State, viewer: nat, query: Query)
    ensures Filter(s.loans, Nested(fold, s, viewer, query)) == Filter(s.loans, Selected(fold, s, viewer, query))
  {
    FilterSame(s.loans, Nested(fold, s, viewer, query), Selected(fold, s, viewer, query));
  }

  /** A sorted selection: strictly increasing, exactly the selected rows, each at the position of its rank. */
  lemma SortedSelection(s: State, selected: Borrowing -> bool, order: Order) returns (list: seq<Borrowing>)
    requires UniqueIds(s.loans)
    ensures list == Sort(Filter(s.loans, selected), NotAfter(order))
    ensures forall a, b | 0 <= a < b < |list| :: Before(order, list[a], list[b])
    ensures forall r :: r in list <==> r in s.loans && selected(r)
    ensures forall i | 0 <= i < |list| :: Rank(s.loans, selected, order, list[i]) == i
    ensures |list| == Count(s.loans, selected)
  {
    var kept := Filter(s.loans, selected);
    list := Sort(kept, NotAfter(order));
    OrderIsTotal(order);
    SortSorts(kept, NotAfter(order));
    FilterKeepsIds(s.loans, selected);
    SameElementsUniqueIds(kept, list);
    forall a, b | 0 <= a < b < |list| ensures Before(order, list[a], list[b]) {
      assert NotAfter(order)(list[a], list[b]);
    }
    assert forall r :: r in list <==> r in multiset(kept);
    SameLength(list, kept);
    FilterLength(s.loans, selected);
    forall i | 0 <= i < |list| ensures Rank(s.loans, selected, order, list[i]) == i {
      PositionIsRank(list, order, i);
      CountPermuted(list, kept, BeforeRow(order, list[i]));
    }
  }

  /** Exactly the rows the request asks for, each once and in the order it asks for. */
  ghost predicate Answers(fold: char -> char, s: State, viewer: nat, query: Query, rows: seq<Borrowing>)
    requires WellFormed(s) && viewer in s.users
  {
    && (forall r :: r in rows <==> r in s.loans && Wanted(fold, s, viewer, query, r))
    && InOrder(rows, query.sort, query.direction)
  }

  lemma AnswerAnswers(fold: char -> char, s: State, viewer: nat, query: Query)
    requires WellFormed(s) && viewer in s.users
    ensures Answers(fold, s, viewer, query, Answer(fold, s, viewer, query))
  {
    var list := SortedSelection(s, Selected(fold, s, viewer, query), OrderOf(query));
    BeforeInOrder(list, query);
    forall r | r in s.loans ensures Selected(fold, s, viewer, query)(r) <==> Wanted(fold, s, viewer, query, r) {
      SelectedIsWanted(fold, s, viewer, query, r);
    }
  }

  /** Listed in order, hence each row once, and exactly the selected rows whose rank falls on the page. */
  ghost predicate IsPage(items: seq<Borrowing>, loans: seq<Borrowing>, selected: Borrowing -> bool, order: Order, page: int) {
    && (forall i, j | 0 <= i < j < |items| :: Before(order, items[i], items[j]))
    && (forall r :: r in items <==>
          r in loans && selected(r) && (page - 1) * PER_PAGE <= Rank(loans, selected, order, r) < page * PER_PAGE)
  }

  /** A page of an ordered list is ordered and holds the elements at its positions, no others. */
  lemma PageByPosition(list: seq<Borrowing>, order: Order, page: int)
    requires page >= 1 && forall a, b | 0 <= a < b < |list| :: Before(order, list[a], list[b])
    ensures var items := Page(list, page);
      && (forall i, j | 0 <= i < j < |items| :: Before(order, items[i], items[j]))
      && (forall r | r in items :: r in list)
      && (forall i | 0 <= i < |list| :: list[i] in items <==> (page - 1) * PER_PAGE <= i < page * PER_PAGE)
  {
    var items := Page(list, page);
    var lo, hi := Min((page - 1) * PER_PAGE, |list|), Min(page * PER_PAGE, |list|);
    assert forall k | 0 <= k < |items| :: items[k] == list[lo + k];
    forall i | 0 <= i < |list| ensures list[i] in items <==> lo <= i < hi {
      if lo <= i < hi {
        assert items[i - lo] == list[i];
      } else {
        assert forall k | 0 <= k < |items| :: items[k] != list[i];
      }
    }
  }

  lemma PageByRank(s: State, selected: Borrowing -> bool, order: Order, page: int)
    requires UniqueIds(s.loans) && page >= 1
    ensures IsPage(Page(Sort(Filter(s.loans, selected), NotAfter(order)), page), s.loans, selected, order, page)
  {
    var list := SortedSelection(s, selected, order);
    PageByPosition(list, order, page);
    var items := Page(list, page);
    forall r ensures r in items <==>
      r in list && (page - 1) * PER_PAGE <= Rank(s.loans, selected, order, r) < page * PER_PAGE
    {
      if r in list {
        var i :| 0 <= i < |list| && list[i] == r;
        assert list[i] in items <==> (page - 1) * PER_PAGE <= i < page * PER_PAGE;
      }
    }
  }

  /** The 25 rows of a list from row 25 * (page - 1) on, fewer at its end; page 1 when the page asked for is not positive. */
  ghost predicate IsSlice(items: seq<Borrowing>, list: seq<Borrowing>, page: int) {
    var first := if page <= 0 then 0 else 25 * (page - 1);
    && |items| == (if |list| <= first then 0 else if |list| < first + 25 then |list| - first else 25)
    && forall k | 0 <= k < |items| :: items[k] == list[first + k]
  }

  lemma PageIsSlice(list: seq<Borrowing>, page: int)
    ensures IsSlice(Page(list, Clamp(page)), list, page)
  {
  }

  /** One page of the answer, and what that page is on its own. */
  lemma PageOfAnswer(fold: char -> char, s: State, viewer: nat, query: Query)
    requires WellFormed(s) && viewer in s.users
    ensures var all, items := Answer(fold, s, viewer, query), Page(Answer(fold, s, viewer, query), Clamp(query.page));
      && Answers(fold, s, viewer, query, all) && IsSlice(items, all, query.page) && InOrder(items, query.sort, query.direction)
      && IsPage(items, s.loans, Selected(fold, s, viewer, query), OrderOf(query), Clamp(query.page))
  {
    AnswerAnswers(fold, s, viewer, query);
    PageIsSlice(Answer(fold, s, viewer, query), query.page);
    PageByRank(s, Selected(fold, s, viewer, query), OrderOf(query), Clamp(query.page));
    BeforeInOrder(Page(Answer(fold, s, viewer, query), Clamp(query.page)), query);
  }

  /** The first half of `index`: `scope` narrowed step by step as the controller does. */
  method Scope(fold: char -> char, s: State, books: seq<CanBorrow.Row>, users: seq<UserRow>, viewer: nat, query: Query)
    returns (scope: seq<Borrowing>)
    requires WellFormed(s) && viewer in s.users
    requires CanBorrow.IsScan(books, s.books) && IsUserScan(users, s.users)
    ensures scope == Filter(s.loans, Selected(fold, s, viewer, query))
  {
    scope := s.loans;
    OwnRows(s, viewer);
    if !IsLibrarian(s, viewer) {
      scope := Filter(scope, OwnedBy(viewer));
    }
    ghost var visible := VisibleTo(s, viewer);

    StatusWhere(s.loans, visible, query.status);
    if query.status.Some? {
      scope := Filter(scope, HasStatus(query.status.value));
    }
    ghost var byStatus := ByStatus(visible, query.status);

    TextWhere(s.loans, byStatus, query.q, Hit(fold, s, query.q));
    if query.q != "" {
      SearchIsFilter(fold, s, scope, books, users, query.q);
      scope := Search(fold, scope, books, users, query.q);
    }
    ghost var byText := ByText(byStatus, query.q, Hit(fold, s, query.q));

    DateWhere(s.loans, byText, query.date);
    if query.date.Some? {
      scope := Filter(scope, BorrowedOn(query.date.value));
    }
    NestedIsSelected(fold, s, viewer, query);
  }

  /** The `index` action: filter, order, page. */
  method Index(fold: char -> char, s: State, books: seq<CanBorrow.Row>, users: seq<UserRow>, viewer: nat, query: Query)
    returns (items: seq<Borrowing>)
    requires WellFormed(s) && viewer in s.users
    requires CanBorrow.IsScan(books, s.books) && IsUserScan(users, s.users)
    // a slice of everything the request asks for, itself in the order asked for
    ensures Answers(fold, s, viewer, query, Answer(fold, s, viewer, query))
    ensures IsSlice(items, Answer(fold, s, viewer, query), query.page)
    ensures InOrder(items, query.sort, query.direction)
    ensures items == Page(Answer(fold, s, viewer, query), Clamp(query.page))
    ensures IsPage(items, s.loans, Selected(fold, s, viewer, query), OrderOf(query), Clamp(query.page))
  {
    var scope := Scope(fold, s, books, users, viewer, query);
    var order: Order;
    if query.sort == ByDueDate {
      order := Order(ByDueDate, if query.direction.Some? then query.direction.value else Asc);
    } else {
      order := Order(ByBorrowedAt, if query.direction.Some? then query.direction.value else Desc);
    }
    scope := Sort(scope, NotAfter(order));
    var page := query.page;
    if page <= 0 {
      page := 1;
    }
    items := Page(scope, page);
    PageOfAnswer(fold, s, viewer, query);
  }
}
