/**
 The client's paging over a fixed listing: Prev, Next, and what pressing Next
 until it is disabled shows. A press and the reload it causes are one step.
 */
module Paging {
  import opened Schema
  import opened Listing
  import opened Collections

  /** Whether the Next button is enabled on a page. */
  predicate NextEnabled<T>(list: seq<T>, page: int)
    requires page >= 1
  {
    |Page(list, page)| >= PER_PAGE
  }

  function NextPage<T>(list: seq<T>, page: int): (r: int)
    requires page >= 1
    ensures r >= 1
  {
    if NextEnabled(list, page) then page + 1 else page
  }

  /** The page shown after pressing Next `presses` times from page 1. */
  function PageAfter<T>(list: seq<T>, presses: nat): (r: int)
    ensures r >= 1
  {
    if presses == 0 then 1 else NextPage(list, PageAfter(list, presses - 1))
  }

  lemma PageSize<T>(list: seq<T>, page: int)
    requires page >= 1 && (page - 1) * PER_PAGE <= |list|
    ensures |Page(list, page)| == Min(PER_PAGE, |list| - (page - 1) * PER_PAGE)
  {
  }

  /** Next works exactly floor(n / 25) times and is disabled from then on. */
  lemma {:induction false} NextStops<T>(list: seq<T>, presses: nat)
    ensures PageAfter(list, presses) == 1 + Min(presses, |list| / PER_PAGE)
  {
    if presses == 0 {
    } else {
      NextStops(list, presses - 1);
      PageSize(list, PageAfter(list, presses - 1));
    }
  }

  /** Everything shown on pages 1 to `pages`, one after the other. */
  function Shown<T>(list: seq<T>, pages: nat): seq<T> {
    if pages == 0 then [] else Shown(list, pages - 1) + Page(list, pages)
  }

  lemma {:induction false} ShownIsPrefix<T>(list: seq<T>, pages: nat)
    ensures Shown(list, pages) == list[..Min(pages * PER_PAGE, |list|)]
  {
    if pages == 0 {
    } else {
      ShownIsPrefix(list, pages - 1);
    }
  }

  /** Walking to the page where Next is disabled shows the whole listing, every row once and in order. */
  lemma WalkIsComplete<T>(list: seq<T>, presses: nat)
    requires !NextEnabled(list, PageAfter(list, presses))
    ensures Shown(list, PageAfter(list, presses)) == list
    ensures presses >= |list| / PER_PAGE
  {
    NextStops(list, presses);
    PageSize(list, PageAfter(list, presses));
    ShownIsPrefix(list, PageAfter(list, presses));
    assert list[..|list|] == list;
  }

  // The walk over the answer to a query

  /** Next moves floor(n / 25) times, n being the number of borrowings the query selects. */
  lemma PagesOfAnswer(fold: char -> char, s: State, viewer: nat, query: Query, presses: nat)
    requires WellFormed(s)
    ensures PageAfter(Answer(fold, s, viewer, query), presses) ==
            1 + Min(presses, Count(s.loans, Selected(fold, s, viewer, query)) / 25)
  {
    var list := SortedSelection(s, Selected(fold, s, viewer, query), OrderOf(query));
    NextStops(list, presses);
  }

  /**
   Whoever presses Next until it is disabled has been shown exactly the
   borrowings the query asks for, each once and in the order it asks for.
   */
  lemma {:induction false} WalkShowsTheSelection(fold: char -> char, s: State, viewer: nat, query: Query, presses: nat)
    requires WellFormed(s) && viewer in s.users
    requires !NextEnabled(Answer(fold, s, viewer, query), PageAfter(Answer(fold, s, viewer, query), presses))
    ensures var list, selected := Answer(fold, s, viewer, query), Selected(fold, s, viewer, query);
      && Answers(fold, s, viewer, query, Shown(list, PageAfter(list, presses)))
      && PageAfter(list, presses) == 1 + Count(s.loans, selected) / 25
  {
    var list := SortedSelection(s, Selected(fold, s, viewer, query), OrderOf(query));
    WalkIsComplete(list, presses);
    NextStops(list, presses);
    AnswerAnswers(fold, s, viewer, query);
  }

  /** The page component's paging state; `items` is what the server returned for it. */
  class BorrowingsPage {
    var page: int
    var items: seq<Borrowing>

    /** The page shows its slice of the listing and lies within it, at worst one empty page past the end. */
    ghost predicate Shows(list: seq<Borrowing>)
      reads this
    {
      page >= 1 && (page - 1) * PER_PAGE <= |list| && items == Page(list, page)
    }

    constructor (list: seq<Borrowing>)
      ensures Shows(list) && page == 1
    {
      page, items := 1, Page(list, 1);
    }

    /** Any change of search text, date, status or sort: back to page 1 of the new listing. */
    method Change(list: seq<Borrowing>)
      modifies this
      ensures Shows(list) && page == 1
    {
      page := 1;
      items := Page(list, page);
    }

    method PressNext(list: seq<Borrowing>)
      requires Shows(list)
      modifies this
      ensures Shows(list) && page == NextPage(list, old(page))
      ensures page == if |old(items)| < 25 then old(page) else old(page) + 1
    {
      if |items| < PER_PAGE {
        return;
      }
      page := page + 1;
      items := Page(list, page);
    }

    /** Prev undoes a Next that moved. */
    method PressPrev(list: seq<Borrowing>)
      requires Shows(list)
      modifies this
      ensures Shows(list) && page == if old(page) > 1 then old(page) - 1 else 1
      ensures old(page) > 1 ==> NextPage(list, page) == old(page)
    {
      page := if page - 1 > 1 then page - 1 else 1;
      items := Page(list, page);
    }
  }
}
