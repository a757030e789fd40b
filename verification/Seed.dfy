/** The bestseller seed: an upsert loop keyed by a zero-padded ISBN. */
module Seed {
  import opened Schema
  import opened Loans

  // format("999%010d", n)

  function Digit(d: nat): char
    requires d < 10
  {
    ('0' as int + d) as char
  }

  function Digits(n: nat): (s: string)
    ensures |s| >= 1
  {
    if n < 10 then [Digit(n)] else Digits(n / 10) + [Digit(n % 10)]
  }

  function Zeros(k: nat): string { seq(k, _ => '0') }

  function Isbn(n: nat): string {
    var digits := Digits(n);
    "999" + (if |digits| < 10 then Zeros(10 - |digits|) else "") + digits
  }

  /** The number a string of digits denotes, leading zeros or not. */
  function Value(s: string): int {
    if s == "" then 0 else 10 * Value(s[..|s| - 1]) + (s[|s| - 1] as int - '0' as int)
  }

  lemma {:induction false} ValueOfDigits(n: nat)
    ensures Value(Digits(n)) == n
  {
    var s := Digits(n);
    if n >= 10 {
      ValueOfDigits(n / 10);
      assert s[..|s| - 1] == Digits(n / 10);
    } else {
      assert s[..0] == "";
    }
  }

  lemma {:induction false} ZerosAddNothing(k: nat, s: string)
    ensures Value(Zeros(k) + s) == Value(s)
  {
    var t := Zeros(k) + s;
    if s != "" {
      assert t[..|t| - 1] == Zeros(k) + s[..|s| - 1];
      ZerosAddNothing(k, s[..|s| - 1]);
    } else if k == 0 {
    } else {
      assert t[..|t| - 1] == Zeros(k - 1) + s;
      ZerosAddNothing(k - 1, s);
    }
  }

  /** The number can be read back, whatever its size. */
  lemma IsbnDecodes(n: nat)
    ensures Value(Isbn(n)[3..]) == n
  {
    ValueOfDigits(n);
    var digits := Digits(n);
    if |digits| < 10 {
      assert Isbn(n)[3..] == Zeros(10 - |digits|) + digits;
      ZerosAddNothing(10 - |digits|, digits);
    } else {
      assert Isbn(n)[3..] == digits;
    }
  }

  function Pow10(k: nat): nat { if k == 0 then 1 else 10 * Pow10(k - 1) }

  lemma {:induction false} DigitsFit(n: nat, k: nat)
    requires k >= 1
    ensures |Digits(n)| <= k <==> n < Pow10(k)
  {
    if k == 1 {
      assert Pow10(1) == 10;
    } else if n >= 10 {
      DigitsFit(n / 10, k - 1);
    } else {
      Pow10Grows(k);
    }
  }

  lemma {:induction false} Pow10Grows(k: nat)
    requires k >= 1
    ensures Pow10(k) >= 10
  {
    if k == 1 {
    } else {
      Pow10Grows(k - 1);
    }
  }

  lemma {:induction false} DigitsAreDigits(n: nat)
    ensures forall c | c in Digits(n) :: '0' <= c <= '9'
    ensures n > 0 ==> Digits(n)[0] != '0'
  {
    if n < 10 {
    } else {
      DigitsAreDigits(n / 10);
    }
  }

  /** The prefix, then digits only, at least ten of them and padded no further. */
  lemma IsbnFormat(n: nat)
    ensures Isbn(n)[..3] == "999" && |Isbn(n)| >= 13
    ensures forall c | c in Isbn(n) :: '0' <= c <= '9'
    ensures |Isbn(n)| > 13 ==> Isbn(n)[3] != '0'
  {
    DigitsAreDigits(n);
    DigitsFit(0, 1);
    var digits := Digits(n);
    var padding := if |digits| < 10 then Zeros(10 - |digits|) else "";
    assert Isbn(n) == "999" + padding + digits;
    assert forall c | c in padding :: c == '0';
    if |digits| > 10 { assert Isbn(n)[3] == digits[0]; }
  }

  /** Different numbers get different ISBNs, thirteen characters long exactly below 10^10. */
  lemma IsbnsDiffer(m: nat, n: nat)
    ensures Isbn(m) == Isbn(n) ==> m == n
    ensures |Isbn(n)| == 13 <==> n < 10_000_000_000
  {
    IsbnDecodes(m);
    IsbnDecodes(n);
    DigitsFit(n, 10);
    assert Pow10(5) == 100_000;
    assert Pow10(10) == 10_000_000_000;
  }

  // The upsert loop

  datatype Bestseller = Bestseller(title: string, author: string, genre: string)

  function Record(list: seq<Bestseller>, i: nat): Book
    requires i < |list|
  {
    Book(list[i].title, list[i].author, list[i].genre, Isbn(i + 1), 10)
  }

  predicate HasIsbn(books: map<nat, Book>, isbn: string) { exists b | b in books :: books[b].isbn == isbn }

  predicate HasRecord(books: map<nat, Book>, record: Book) { exists b | b in books :: books[b] == record }

  /** An ISBN of one of the first `n` entries. */
  predicate SeedIsbn(isbn: string, n: nat) { exists k | 1 <= k <= n :: Isbn(k) == isbn }

  /** Some book has the entry's title, author and genre, the ISBN of its number and ten copies. */
  ghost predicate Stocks(books: map<nat, Book>, entry: Bestseller, number: nat) {
    exists b | b in books ::
      && books[b].title == entry.title && books[b].author == entry.author && books[b].genre == entry.genre
      && books[b].isbn == Isbn(number) && books[b].totalCopies == 10
  }

  lemma RecordStocks(books: map<nat, Book>, list: seq<Bestseller>, i: nat)
    requires i < |list| && HasRecord(books, Record(list, i))
    ensures Stocks(books, list[i], i + 1)
  {
    var b :| b in books && books[b] == Record(list, i);
  }

  ghost predicate Seeded(books: map<nat, Book>, list: seq<Bestseller>) {
    forall i | 0 <= i < |list| :: HasRecord(books, Record(list, i))
  }

  lemma SeededStocks(books: map<nat, Book>, list: seq<Bestseller>)
    requires Seeded(books, list)
    ensures forall i | 0 <= i < |list| :: Stocks(books, list[i], i + 1)
  {
    forall i | 0 <= i < |list| ensures Stocks(books, list[i], i + 1) { RecordStocks(books, list, i); }
  }

  /** Entries among the first `n` with no book of their ISBN. */
  function Missing(books: map<nat, Book>, n: nat): nat {
    if n == 0 then 0 else Missing(books, n - 1) + if HasIsbn(books, Isbn(n)) then 0 else 1
  }

  /** Entries among the first `n` whose book differs from them. */
  function Stale(books: map<nat, Book>, list: seq<Bestseller>, n: nat): nat
    requires n <= |list|
  {
    if n == 0 then 0
    else Stale(books, list, n - 1) + if HasIsbn(books, Isbn(n)) && !HasRecord(books, Record(list, n - 1)) then 1 else 0
  }

  lemma NextIsbnIsNew(n: nat)
    ensures !SeedIsbn(Isbn(n + 1), n)
  {
    forall k | 1 <= k <= n ensures Isbn(k) != Isbn(n + 1) { IsbnsDiffer(n + 1, k); }
  }

  /** What the loop has done after `n` entries: those written, everything else as it was. */
  ghost predicate Progressed(before: map<nat, Book>, books: map<nat, Book>, list: seq<Bestseller>, n: nat)
    requires n <= |list|
  {
    && UniqueIsbns(books)
    && (forall b | b in before :: b in books && books[b].isbn == before[b].isbn)
    && (forall b | b in before && !SeedIsbn(before[b].isbn, n) :: books[b] == before[b])
    && (forall b | b in books && b !in before :: SeedIsbn(books[b].isbn, n))
    && (forall i | 0 <= i < n :: HasRecord(books, Record(list, i)))
  }

  lemma UpsertKeepsUnique(books: map<nat, Book>, id: nat, record: Book)
    requires UniqueIsbns(books)
    requires forall b | b in books && books[b].isbn == record.isbn :: b == id
    ensures UniqueIsbns(books[id := record])
  {
  }

  lemma UpsertKeepsRecords(books: map<nat, Book>, list: seq<Bestseller>, n: nat, id: nat)
    requires n < |list|
    requires forall i | 0 <= i < n :: HasRecord(books, Record(list, i))
    requires id in books ==> books[id].isbn == Isbn(n + 1)
    ensures forall i | 0 <= i <= n :: HasRecord(books[id := Record(list, n)], Record(list, i))
  {
    var after := books[id := Record(list, n)];
    forall i | 0 <= i <= n ensures HasRecord(after, Record(list, i)) {
      if i == n {
        assert after[id] == Record(list, i);
      } else {
        assert HasRecord(books, Record(list, i));
        var b :| b in books && books[b] == Record(list, i);
        IsbnsDiffer(i + 1, n + 1);
        assert after[b] == Record(list, i);
      }
    }
  }

  lemma {:induction false} UpsertProgresses(before: map<nat, Book>, books: map<nat, Book>, list: seq<Bestseller>, n: nat, id: nat)
    requires n < |list| && Progressed(before, books, list, n)
    requires id in books ==> books[id].isbn == Isbn(n + 1)
    requires HasIsbn(books, Isbn(n + 1)) ==> id in books
    requires id !in books ==> id !in before
    ensures Progressed(before, books[id := Record(list, n)], list, n + 1)
  {
    var record := Record(list, n);
    var after := books[id := record];
    assert record.isbn == Isbn(n + 1);
    UpsertKeepsUnique(books, id, record);
    UpsertKeepsRecords(books, list, n, id);
    SeedIsbnGrows(n);
    forall b | b in before ensures b in after && after[b].isbn == before[b].isbn {}
    forall b | b in before && !SeedIsbn(before[b].isbn, n + 1) ensures after[b] == before[b] {}
    forall b | b in after && b !in before ensures SeedIsbn(after[b].isbn, n + 1) {}
  }

  lemma SeedIsbnGrows(n: nat)
    ensures forall isbn :: SeedIsbn(isbn, n + 1) <==> SeedIsbn(isbn, n) || isbn == Isbn(n + 1)
  {
  }

  /** The entry about to be handled finds the table as it was at the start. */
  lemma LookaheadUnchanged(before: map<nat, Book>, books: map<nat, Book>, list: seq<Bestseller>, n: nat)
    requires n < |list| && Progressed(before, books, list, n)
    ensures HasIsbn(books, Isbn(n + 1)) == HasIsbn(before, Isbn(n + 1))
    ensures HasRecord(books, Record(list, n)) == HasRecord(before, Record(list, n))
  {
    NextIsbnIsNew(n);
    if b :| b in before && before[b].isbn == Isbn(n + 1) { assert books[b] == before[b]; }
  }

  /** One entry of the loop: find or initialize by ISBN, assign, save when changed. */
  method SaveEntry(ghost before: map<nat, Book>, books: map<nat, Book>, nextBook: nat, list: seq<Bestseller>, index: nat)
    returns (table: map<nat, Book>, next: nat, wasNew: bool, changed: bool)
    requires index < |list| && Progressed(before, books, list, index)
    requires forall b | b in books :: b < nextBook
    ensures Progressed(before, table, list, index + 1)
    ensures Stocks(table, list[index], index + 1)
    ensures forall b | b in table :: b < next
    ensures wasNew <==> !HasIsbn(before, Isbn(index + 1))
    ensures changed <==> !HasRecord(before, Record(list, index))
    ensures wasNew ==> changed
    ensures !changed ==> table == books && next == nextBook
  {
    table, next := books, nextBook;
    var isbn := Isbn(index + 1);
    var record := Record(list, index);
    LookaheadUnchanged(before, books, list, index);
    if id :| id in table && table[id].isbn == isbn {
      UpsertProgresses(before, books, list, index, id);
      wasNew, changed := false, table[id] != record;
      assert HasRecord(books, record) <==> books[id] == record;
      if changed {
        table := table[id := record];
      } else {
        assert table[id := record] == table;
      }
    } else {
      UpsertProgresses(before, books, list, index, next);
      wasNew, changed := true, true;
      table, next := table[next := record], next + 1;
    }
    RecordStocks(table, list, index);
  }

  lemma {:induction false} SeededNeedsNothing(books: map<nat, Book>, list: seq<Bestseller>, n: nat)
    requires Seeded(books, list) && n <= |list|
    ensures Missing(books, n) == 0 && Stale(books, list, n) == 0
  {
    if n == 0 {
    } else {
      SeededNeedsNothing(books, list, n - 1);
      assert HasRecord(books, Record(list, n - 1));
      var b :| b in books && books[b] == Record(list, n - 1);
      assert books[b].isbn == Isbn(n);
    }
  }

  method SeedBestsellers(books: map<nat, Book>, nextBook: nat, list: seq<Bestseller>)
    returns (table: map<nat, Book>, next: nat, created: nat, updated: nat)
    requires UniqueIsbns(books) && forall b | b in books :: b < nextBook
    requires forall e | e in list :: !Blank(e.title) && !Blank(e.author) && !Blank(e.genre)
    // every entry is stored, no other key is touched, no book changes its ISBN, ISBNs stay unique
    ensures Progressed(books, table, list, |list|) && Seeded(table, list)
    ensures forall i | 0 <= i < |list| :: Stocks(table, list[i], i + 1)
    ensures forall b | b in table :: b < next
    // the counts are the entries that were absent and those that differed; without any, nothing changed
    ensures created == Missing(books, |list|) && updated == Stale(books, list, |list|)
    ensures created == 0 && updated == 0 ==> table == books && next == nextBook
    // a further run reports nothing
    ensures Seeded(books, list) ==> created == 0 && updated == 0
  {
    table, next, created, updated := books, nextBook, 0, 0;
    var index := 0;
    while index < |list|
      invariant index <= |list|
      invariant Progressed(books, table, list, index)
      invariant forall b | b in table :: b < next
      invariant created == Missing(books, index) && updated == Stale(books, list, index)
      invariant created == 0 && updated == 0 ==> table == books && next == nextBook
    {
      var wasNew, changed;
      table, next, wasNew, changed := SaveEntry(books, table, next, list, index);
      if changed {
        if wasNew {
          created := created + 1;
        } else {
          updated := updated + 1;
        }
      }
      index := index + 1;
    }
    SeededStocks(table, list);
    if Seeded(books, list) { SeededNeedsNothing(books, list, |list|); }
  }
}
