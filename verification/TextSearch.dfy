/**
 The borrowings text search: two LEFT JOINs and five ILIKE tests under SQL's
 three-valued logic. Case folding is any per-character folding.
 */
module TextSearch {
  import opened Wrappers
  import opened Collections
  import opened Schema
  import opened Relational
  import opened Like
  import CanBorrow

  datatype UserRow = UserRow(id: nat, user: User)

  /** Some order in which the users table can be read. */
  ghost predicate IsUserScan(scan: seq<UserRow>, users: map<nat, User>) {
    && (forall i, j | 0 <= i < j < |scan| :: scan[i].id != scan[j].id)
    && (forall r | r in scan :: r.id in users && users[r.id] == r.user)
    && (forall u | u in users :: UserRow(u, users[u]) in scan)
  }

  datatype Truth = True | False | Null

  function Or(a: Truth, b: Truth): Truth {
    if a == True || b == True then True else if a == Null || b == Null then Null else False
  }

  function ILike(fold: char -> char, field: Option<string>, pattern: string): Truth {
    if field == None then Null
    else if Matches(Fold(fold, pattern), Fold(fold, field.value)) then True
    else False
  }

  type Joined = ((Borrowing, Option<CanBorrow.Row>), Option<UserRow>)

  function OnBook(): (Borrowing, CanBorrow.Row) -> bool { (r: Borrowing, b: CanBorrow.Row) => b.id == r.bookId }
  function OnUser(): ((Borrowing, Option<CanBorrow.Row>), UserRow) -> bool {
    (r: (Borrowing, Option<CanBorrow.Row>), u: UserRow) => u.id == r.0.userId
  }
  function Loan(): Joined -> Borrowing { (j: Joined) => j.0.0 }

  function TitleOf(b: Option<CanBorrow.Row>): Option<string> { if b.Some? then Some(b.value.book.title) else None }
  function AuthorOf(b: Option<CanBorrow.Row>): Option<string> { if b.Some? then Some(b.value.book.author) else None }
  function EmailOf(u: Option<UserRow>): Option<string> { if u.Some? then Some(u.value.user.email) else None }
  function FirstNameOf(u: Option<UserRow>): Option<string> { if u.Some? then u.value.user.firstName else None }
  function LastNameOf(u: Option<UserRow>): Option<string> { if u.Some? then u.value.user.lastName else None }

  /** The WHERE clause; a row is kept only when it is TRUE. */
  function Where(fold: char -> char, q: string): Joined -> bool {
    (j: Joined) =>
      var p := Anywhere(q);
      Or(Or(Or(Or(ILike(fold, TitleOf(j.0.1), p), ILike(fold, AuthorOf(j.0.1), p)), ILike(fold, EmailOf(j.1), p)),
            ILike(fold, FirstNameOf(j.1), p)), ILike(fold, LastNameOf(j.1), p)) == True
  }

  function Search(fold: char -> char, scope: seq<Borrowing>, books: seq<CanBorrow.Row>, users: seq<UserRow>, q: string): seq<Borrowing> {
    Map(Filter(LeftJoin(LeftJoin(scope, books, OnBook()), users, OnUser()), Where(fold, q)), Loan())
  }

  /** The fields a borrowing is searched by, those that are not NULL. */
  function Fields(books: map<nat, Book>, users: map<nat, User>, r: Borrowing): set<string>
    requires r.bookId in books && r.userId in users
  {
    var b, u := books[r.bookId], users[r.userId];
    {b.title, b.author, u.email} + (if u.firstName.Some? then {u.firstName.value} else {})
                                 + (if u.lastName.Some? then {u.lastName.value} else {})
  }

  /** Some field that is not NULL matches. */
  function Hit(fold: char -> char, s: State, q: string): Borrowing -> bool {
    (r: Borrowing) => r.bookId in s.books && r.userId in s.users
                      && exists f | f in Fields(s.books, s.users, r) :: SearchMatches(fold, q, f)
  }

  lemma {:induction false} FilterAligned<A, B>(wide: seq<A>, narrow: seq<B>, p: A -> bool, q: B -> bool, f: A -> B)
    requires |wide| == |narrow|
    requires forall i | 0 <= i < |wide| :: f(wide[i]) == narrow[i] && p(wide[i]) == q(narrow[i])
    ensures Map(Filter(wide, p), f) == Filter(narrow, q)
  {
    if wide == [] {
    } else {
      FilterAligned(wide[1..], narrow[1..], p, q, f);
      assert Map(Filter(wide, p), f) == (if p(wide[0]) then [f(wide[0])] else []) + Map(Filter(wide[1..], p), f);
    }
  }

  /**
   The joined search is a plain filter of its input, in the same order and each borrowing once:
   it keeps exactly the borrowings with a matching field that is not NULL.
   */
  lemma {:induction false} SearchIsFilter(fold: char -> char, s: State, scope: seq<Borrowing>,
                                          books: seq<CanBorrow.Row>, users: seq<UserRow>, q: string)
    requires CanBorrow.IsScan(books, s.books) && IsUserScan(users, s.users)
    requires forall r | r in scope :: r.bookId in s.books && r.userId in s.users
    ensures Search(fold, scope, books, users, q) == Filter(scope, Hit(fold, s, q))
  {
    LeftJoinKeepsRows(scope, books, OnBook());
    var first := LeftJoin(scope, books, OnBook());
    LeftJoinKeepsRows(first, users, OnUser());
    var both := LeftJoin(first, users, OnUser());
    forall i | 0 <= i < |scope| ensures Loan()(both[i]) == scope[i] && Where(fold, q)(both[i]) == Hit(fold, s, q)(scope[i]) {
      assert JoinedRow(first[i], scope[i], books, OnBook()) && JoinedRow(both[i], first[i], users, OnUser());
      assert scope[i] in scope;
      JoinedFields(fold, s, scope[i], books, users, both[i], q);
    }
    FilterAligned(both, scope, Where(fold, q), Hit(fold, s, q), Loan());
  }

  lemma JoinedFields(fold: char -> char, s: State, r: Borrowing, books: seq<CanBorrow.Row>, users: seq<UserRow>, j: Joined, q: string)
    requires CanBorrow.IsScan(books, s.books) && IsUserScan(users, s.users)
    requires r.bookId in s.books && r.userId in s.users
    requires JoinedRow(j.0, r, books, OnBook()) && JoinedRow(j, j.0, users, OnUser())
    ensures Where(fold, q)(j) == Hit(fold, s, q)(r)
  {
    var b, u := s.books[r.bookId], s.users[r.userId];
    assert CanBorrow.Row(r.bookId, b) in books && UserRow(r.userId, u) in users;
    assert j.0.1 == Some(CanBorrow.Row(r.bookId, b)) && j.1 == Some(UserRow(r.userId, u));
    var fields := Fields(s.books, s.users, r);
    assert b.title in fields && b.author in fields && u.email in fields;
    assert Where(fold, q)(j) ==
      (|| SearchMatches(fold, q, b.title) || SearchMatches(fold, q, b.author) || SearchMatches(fold, q, u.email)
       || (u.firstName.Some? && SearchMatches(fold, q, u.firstName.value))
       || (u.lastName.Some? && SearchMatches(fold, q, u.lastName.value)));
  }

  /** For a search text without wildcards: some field that is not NULL contains it, up to case. */
  lemma LiteralHit(fold: char -> char, s: State, q: string, r: Borrowing)
    requires SafeFold(fold) && Literal(q) && r.bookId in s.books && r.userId in s.users
    ensures Hit(fold, s, q)(r) <==> exists f | f in Fields(s.books, s.users, r) :: Contains(Fold(fold, f), Fold(fold, q))
  {
    forall f ensures SearchMatches(fold, q, f) <==> Contains(Fold(fold, f), Fold(fold, q)) {
      LiteralSearchContains(fold, q, f);
    }
  }

  /** The text with `%` around it can be cut along the field, both folded. */
  ghost predicate Found(fold: char -> char, q: string, field: string) {
    CanBeCut(Tokens(Fold(fold, "%" + q + "%")), Fold(fold, field))
  }

  /** In the title, the author, the e-mail, the first name or the last name; a missing name is never found. */
  ghost predicate FoundInSome(fold: char -> char, q: string, b: Book, u: User) {
    || Found(fold, q, b.title) || Found(fold, q, b.author) || Found(fold, q, u.email)
    || (u.firstName.Some? && Found(fold, q, u.firstName.value))
    || (u.lastName.Some? && Found(fold, q, u.lastName.value))
  }

  lemma HitExactly(fold: char -> char, s: State, q: string, r: Borrowing)
    requires r.bookId in s.books && r.userId in s.users
    ensures Hit(fold, s, q)(r) <==> FoundInSome(fold, q, s.books[r.bookId], s.users[r.userId])
  {
    forall field ensures SearchMatches(fold, q, field) <==> Found(fold, q, field) {
      MatchesExactlyWhenCut(Fold(fold, Anywhere(q)), Fold(fold, field));
    }
    var b, u := s.books[r.bookId], s.users[r.userId];
    var fields := Fields(s.books, s.users, r);
    assert b.title in fields && b.author in fields && u.email in fields;
    assert u.firstName.Some? ==> u.firstName.value in fields;
    assert u.lastName.Some? ==> u.lastName.value in fields;
  }

  /** Any search text: the borrowings found are those with a field that fits. */
  lemma FoundExactly(fold: char -> char, s: State, scope: seq<Borrowing>,
                     books: seq<CanBorrow.Row>, users: seq<UserRow>, q: string, r: Borrowing)
    requires CanBorrow.IsScan(books, s.books) && IsUserScan(users, s.users)
    requires forall x | x in scope :: x.bookId in s.books && x.userId in s.users
    requires r in scope
    ensures r in Search(fold, scope, books, users, q) <==> FoundInSome(fold, q, s.books[r.bookId], s.users[r.userId])
  {
    SearchIsFilter(fold, s, scope, books, users, q);
    HitExactly(fold, s, q, r);
  }
}
