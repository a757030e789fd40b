/** `top_by_borrowings` and the flags the member dashboard adds to it. */
module TopBooks {
  import opened Wrappers
  import opened Collections
  import opened Schema
  import opened Loans
  import opened Relational
  import opened Sorting
  import opened CanBorrow

  type Joined = (Row, Option<Borrowing>)

  function OnLoan(): (Row, Borrowing) -> bool { (b: Row, r: Borrowing) => r.bookId == b.id }
  function IdOf(): Joined -> nat { (j: Joined) => j.0.id }

  /** Rows of a group whose borrowings.id is not NULL: what COUNT(borrowings.id) counts. */
  function LoanRowOf(id: nat): Joined -> bool { (j: Joined) => j.0.id == id && j.1.Some? }

  function CountIn(joined: seq<Joined>): nat -> (nat, nat) { (id: nat) => (id, Count(joined, LoanRowOf(id))) }

  /** LEFT JOIN borrowings, GROUP BY books.id, COUNT(borrowings.id). */
  function BorrowingCounts(scan: seq<Row>, loans: seq<Borrowing>): seq<(nat, nat)> {
    var joined := LeftJoin(scan, loans, OnLoan());
    Map(SelectDistinct(Map(joined, IdOf())), CountIn(joined))
  }

  function ByCountDesc(): ((nat, nat), (nat, nat)) -> bool { (x: (nat, nat), y: (nat, nat)) => x.1 >= y.1 }

  /** Any answer ORDER BY COUNT DESC LIMIT may give: ties fall as the database likes. */
  ghost predicate IsTop(top: seq<(nat, nat)>, limit: nat, groups: seq<(nat, nat)>) {
    exists ranked ::
      && multiset(ranked) == multiset(groups) && Sorted(ranked, ByCountDesc())
      && top == ranked[..if limit < |ranked| then limit else |ranked|]
  }

  /** Whatever the groups and the limit, there is an answer. */
  lemma TopExists(limit: nat, groups: seq<(nat, nat)>)
    ensures exists top :: IsTop(top, limit, groups)
  {
    var ranked := Sort(groups, ByCountDesc());
    SortSorts(groups, ByCountDesc());
    assert IsTop(ranked[..if limit < |ranked| then limit else |ranked|], limit, groups);
  }

  lemma {:induction false} PairsCount(row: Row, hits: seq<Borrowing>, id: nat)
    ensures Count(Map(hits, Paired(row)), LoanRowOf(id)) == if row.id == id then |hits| else 0
  {
    var some := (r: Borrowing) => row.id == id;
    CountMap(hits, Paired(row), LoanRowOf(id), some);
    if row.id == id { CountAll(hits, some); } else { CountZero(hits, some); }
  }

  /** In a join of distinct books a book's rows carry each of its borrowings once. */
  lemma {:induction false} JoinCounts(scan: seq<Row>, loans: seq<Borrowing>, id: nat)
    requires forall i, j | 0 <= i < j < |scan| :: scan[i].id != scan[j].id
    ensures Count(LeftJoin(scan, loans, OnLoan()), LoanRowOf(id)) ==
            if exists b :: b in scan && b.id == id then Count(loans, OfBook(id)) else 0
  {
    if scan == [] {
    } else {
      var first, rest := scan[0], scan[1..];
      JoinCounts(rest, loans, id);
      var hits := Filter(loans, Matching(OnLoan(), first));
      var here := if hits == [] then [(first, None)] else Map(hits, Paired(first));
      CountConcat(here, LeftJoin(rest, loans, OnLoan()), LoanRowOf(id));
      PairsCount(first, hits, id);
      FilterLength(loans, Matching(OnLoan(), first));
      assert forall k | 0 <= k < |rest| :: rest[k] == scan[k + 1];
      if first.id == id {
        CountSame(loans, Matching(OnLoan(), first), OfBook(id));
        assert first in scan && forall b | b in rest :: b.id != id;
      } else {
        assert forall b | b in scan && b.id == id :: b in rest;
      }
    }
  }

  predicate HasKey(joined: seq<Joined>, id: nat) { exists j | j in joined :: j.0.id == id }

  predicate HasId(scan: seq<Row>, id: nat) { exists b | b in scan :: b.id == id }

  lemma HasKeyConcat(a: seq<Joined>, b: seq<Joined>, id: nat)
    ensures HasKey(a + b, id) <==> HasKey(a, id) || HasKey(b, id)
  {
    assert forall j :: j in a + b <==> j in a || j in b;
  }

  lemma HasIdFirst(scan: seq<Row>, id: nat)
    requires scan != []
    ensures HasId(scan, id) <==> scan[0].id == id || HasId(scan[1..], id)
  {
    assert forall b :: b in scan <==> b == scan[0] || b in scan[1..];
  }

  /** What a left join makes of one row: its pairs, or the row padded with NULL, all with the row's own key. */
  lemma PaddedKeys(row: Row, hits: seq<Borrowing>, id: nat)
    ensures HasKey(if hits == [] then [(row, None)] else Map(hits, Paired(row)), id) <==> row.id == id
  {
    var here := if hits == [] then [(row, None)] else Map(hits, Paired(row));
    assert here[0] in here && here[0].0 == row;
  }

  /** A left join has a row for every row on its left, and for nothing else. */
  lemma {:induction false} JoinKeys(scan: seq<Row>, loans: seq<Borrowing>, id: nat)
    ensures HasKey(LeftJoin(scan, loans, OnLoan()), id) <==> HasId(scan, id)
  {
    if scan == [] {
    } else {
      var hits := Filter(loans, Matching(OnLoan(), scan[0]));
      PaddedKeys(scan[0], hits, id);
      HasKeyConcat(if hits == [] then [(scan[0], None)] else Map(hits, Paired(scan[0])), LeftJoin(scan[1..], loans, OnLoan()), id);
      HasIdFirst(scan, id);
      JoinKeys(scan[1..], loans, id);
    }
  }

  lemma KeysOfJoin(joined: seq<Joined>, id: nat)
    ensures id in Map(joined, IdOf()) <==> HasKey(joined, id)
  {
    var keys := Map(joined, IdOf());
    if HasKey(joined, id) {
      var j :| j in joined && j.0.id == id;
      var i :| 0 <= i < |joined| && joined[i] == j;
      assert keys[i] == id;
    }
  }

  lemma LoansOfGroup(s: State, scan: seq<Row>, id: nat)
    requires IsScan(scan, s.books) && id in s.books
    ensures Count(LeftJoin(scan, s.loans, OnLoan()), LoanRowOf(id)) == Count(s.loans, OfBook(id))
  {
    JoinCounts(scan, s.loans, id);
    assert Row(id, s.books[id]) in scan;
  }

  lemma GroupedIds(s: State, scan: seq<Row>) returns (ids: seq<nat>)
    requires IsScan(scan, s.books)
    ensures ids == SelectDistinct(Map(LeftJoin(scan, s.loans, OnLoan()), IdOf()))
    ensures Distinct(ids) && (forall id: nat :: id in ids <==> id in s.books) && |ids| == |s.books|
  {
    var joined := LeftJoin(scan, s.loans, OnLoan());
    ids := SelectDistinct(Map(joined, IdOf()));
    SelectDistinctKeepsOne(Map(joined, IdOf()));
    forall id: nat ensures id in ids <==> id in s.books {
      JoinKeys(scan, s.loans, id);
      KeysOfJoin(joined, id);
      if id in s.books { assert Row(id, s.books[id]) in scan; }
    }
    DistinctSize(ids, s.books.Keys);
  }

  /** One group per book, each with the true number of its borrowings: 0, not 1, for a book never borrowed. */
  lemma CountsAreTrue(s: State, scan: seq<Row>)
    requires IsScan(scan, s.books)
    ensures var groups := BorrowingCounts(scan, s.loans);
      && |groups| == |s.books|
      && (forall i, j | 0 <= i < j < |groups| :: groups[i].0 != groups[j].0)
      && (forall g | g in groups :: g.0 in s.books && g.1 == Count(s.loans, OfBook(g.0)))
      && (forall b | b in s.books :: (b, Count(s.loans, OfBook(b))) in groups)
  {
    var ids := GroupedIds(s, scan);
    var groups := BorrowingCounts(scan, s.loans);
    forall i | 0 <= i < |ids| ensures groups[i] == (ids[i], Count(s.loans, OfBook(ids[i]))) && groups[i].0 in s.books {
      assert ids[i] in ids;
      LoansOfGroup(s, scan, ids[i]);
    }
    forall b | b in s.books ensures (b, Count(s.loans, OfBook(b))) in groups {
      assert b in ids;
      var i :| 0 <= i < |ids| && ids[i] == b;
      assert groups[i] in groups;
    }
  }

  predicate Includes(top: seq<(nat, nat)>, book: nat) { exists g | g in top :: g.0 == book }

  /** A cut of a ranked list leaves out nothing that outranks what it keeps. */
  lemma CutKeepsTheBest(ranked: seq<(nat, nat)>, n: nat, omitted: (nat, nat), g: (nat, nat))
    requires n <= |ranked| && Sorted(ranked, ByCountDesc())
    requires omitted in ranked && !Includes(ranked[..n], omitted.0) && g in ranked[..n]
    ensures omitted.1 <= g.1
  {
    var i :| 0 <= i < n && ranked[..n][i] == g;
    var j :| 0 <= j < |ranked| && ranked[j] == omitted;
    assert ByCountDesc()(ranked[i], ranked[j]);
  }

  /**
   However ties fall, the answer is the asked number of distinct books (all of
   them when there are fewer), most borrowed first, each with its true count,
   and no book left out was borrowed more often than one included.
   */
  lemma TopIsTop(s: State, scan: seq<Row>, limit: nat, top: seq<(nat, nat)>)
    requires IsScan(scan, s.books) && IsTop(top, limit, BorrowingCounts(scan, s.loans))
    ensures |top| == if limit < |s.books| then limit else |s.books|
    ensures forall i, j | 0 <= i < j < |top| :: top[i].0 != top[j].0 && top[i].1 >= top[j].1
    ensures forall g | g in top :: g.0 in s.books && g.1 == Count(s.loans, OfBook(g.0))
    ensures forall g, b | g in top && b in s.books && !Includes(top, b) :: Count(s.loans, OfBook(b)) <= g.1
  {
    var groups := BorrowingCounts(scan, s.loans);
    CountsAreTrue(s, scan);
    var ranked :| multiset(ranked) == multiset(groups) && Sorted(ranked, ByCountDesc())
      && top == ranked[..if limit < |ranked| then limit else |ranked|];
    RankedGroups(groups, ranked);
    forall g | g in top ensures g.0 in s.books && g.1 == Count(s.loans, OfBook(g.0)) {
      assert g in ranked;
    }
    forall i, j | 0 <= i < j < |top| ensures top[i].0 != top[j].0 && top[i].1 >= top[j].1 {
      assert ByCountDesc()(ranked[i], ranked[j]);
    }
    forall g, b | g in top && b in s.books && !Includes(top, b) ensures Count(s.loans, OfBook(b)) <= g.1 {
      CutKeepsTheBest(ranked, |top|, (b, Count(s.loans, OfBook(b))), g);
    }
  }

  lemma RankedGroups(groups: seq<(nat, nat)>, ranked: seq<(nat, nat)>)
    requires forall i, j | 0 <= i < j < |groups| :: groups[i].0 != groups[j].0
    requires multiset(ranked) == multiset(groups)
    ensures |ranked| == |groups|
    ensures forall g :: g in ranked <==> g in groups
    ensures forall i, j | 0 <= i < j < |ranked| :: ranked[i].0 != ranked[j].0
  {
    assert |multiset(ranked)| == |multiset(groups)|;
    forall g ensures g in ranked <==> g in groups {
      assert g in ranked <==> g in multiset(ranked);
    }
    DistinctFirsts(groups, ranked);
  }

  function FirstIs(id: nat): ((nat, nat)) -> bool { (g: (nat, nat)) => g.0 == id }

  lemma DistinctFirsts(groups: seq<(nat, nat)>, ranked: seq<(nat, nat)>)
    requires forall i, j | 0 <= i < j < |groups| :: groups[i].0 != groups[j].0
    requires multiset(ranked) == multiset(groups)
    ensures forall i, j | 0 <= i < j < |ranked| :: ranked[i].0 != ranked[j].0
  {
    forall i, j | 0 <= i < j < |ranked| ensures ranked[i].0 != ranked[j].0 {
      var id := ranked[i].0;
      FirstCountAtMostOne(groups, id);
      CountPermuted(groups, ranked, FirstIs(id));
      assert ranked == ranked[..j] + ranked[j..];
      CountConcat(ranked[..j], ranked[j..], FirstIs(id));
      CountZero(ranked[..j], FirstIs(id));
      CountZero(ranked[j..], FirstIs(id));
      assert ranked[..j][i] in ranked[..j] && ranked[j..][0] in ranked[j..];
    }
  }

  lemma {:induction false} FirstCountAtMostOne(groups: seq<(nat, nat)>, id: nat)
    requires forall i, j | 0 <= i < j < |groups| :: groups[i].0 != groups[j].0
    ensures Count(groups, FirstIs(id)) <= 1
  {
    if groups == [] {
    } else {
      FirstCountAtMostOne(groups[1..], id);
      assert forall k | 0 <= k < |groups[1..]| :: groups[1..][k] == groups[k + 1];
      if groups[0].0 == id { CountZero(groups[1..], FirstIs(id)); }
    }
  }

  /** The dashboard's flag query, restricted to the top books, by id. */
  function FlagRowsOf(scan: seq<Row>, loans: seq<Borrowing>, user: nat, member: bool, top: seq<(nat, nat)>): seq<(Row, bool)> {
    Filter(WithCanBorrowFor(scan, loans, Some((user, member))), AmongTop(top))
  }

  function AmongTop(top: seq<(nat, nat)>): ((Row, bool)) -> bool { (r: (Row, bool)) => Includes(top, r.0.id) }

  /** Every top book has its flag row, and whichever row is found for it holds the rule's answer. */
  lemma {:induction false} FlagsAreFound(s: State, scan: seq<Row>, user: nat, limit: nat, top: seq<(nat, nat)>, g: (nat, nat))
    requires IsScan(scan, s.books) && IsTop(top, limit, BorrowingCounts(scan, s.loans)) && g in top
    ensures var rows := FlagRowsOf(scan, s.loans, user, IsMember(s, user), top);
      && (exists r :: r in rows && r.0.id == g.0)
      && (forall r | r in rows && r.0.id == g.0 :: r.1 == MayBorrow(s, user, g.0))
  {
    TopIsTop(s, scan, limit, top);
    var all := WithCanBorrowFor(scan, s.loans, Some((user, IsMember(s, user))));
    FlagRow(s, scan, user, g.0);
    var r :| r in all && r.0.id == g.0;
    assert AmongTop(top)(r);
    assert r in FlagRowsOf(scan, s.loans, user, IsMember(s, user), top);
  }

  lemma FlagRow(s: State, scan: seq<Row>, user: nat, book: nat)
    requires IsScan(scan, s.books) && book in s.books
    ensures var all := WithCanBorrowFor(scan, s.loans, Some((user, IsMember(s, user))));
      && (exists r :: r in all && r.0.id == book)
      && (forall r | r in all && r.0.id == book :: r.1 == MayBorrow(s, user, book))
  {
    var all := WithCanBorrowFor(scan, s.loans, Some((user, IsMember(s, user))));
    QueryIsTheRule(s, scan, user);
    assert Row(book, s.books[book]) in scan;
    var i :| 0 <= i < |scan| && scan[i] == Row(book, s.books[book]);
    assert all[i] in all && all[i].0.id == book;
  }
}
