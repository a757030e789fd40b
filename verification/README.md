# A model of the library-lending system

Rails models and controllers over PostgreSQL, with a React client, reduced to
the parts that decide something: who may hold which copy, what the stored rows
say after any history of requests, what the listing shows, and how many days a
card claims are left.

The tables are one state (`Schema.State`): books and users by id, the
borrowings table as a sequence of rows in storage order, and a clock in integer
milliseconds of UTC. On it stand

- **Loans, Histories, AtomicRuns**: the loan state machine with atomic
  requests, and what every run of it keeps. `Database.Library` performs the same
  requests by updating fields in place, each proved to take the machine's step.
  **Responses** says of each request when it gets which answer and what it leaves
  behind, and **Witnesses** holds the concrete runs on which a promise fails.
- **Interleaving, Traces, Attainment**: creation split into load, duplicate check,
  copies check and insert, with other requests in between and up to `k` creates
  in flight; the moments every stored borrowing goes back to, the bounds on
  overshoot, and a schedule that reaches them.
- **Relational, CanBorrow, TopBooks**: the SQL of `with_can_borrow_for` and
  `top_by_borrowings` as joins and groupings over sequences, proved equal to
  rules stated one book at a time, for any order the tables are read in.
- **Like, TextSearch, Sorting, Listing, Paging**: the borrowings listing, from
  `ILIKE` and NULLs to the client's Next button.
- **DueDates**: the client's day differences and the server's date windows.
- **Seed**: the bestseller upsert loop and its ISBN format.

Four promises of the documentation, or natural readings of it, fail in the
code; the model keeps the code and states exactly when they hold.

- That a user cannot borrow the same book twice (OVERVIEW.md:98, plan.md:119)
  holds for loans still borrowed only. Marking a loan overdue ends its being active:
  `AtomicRuns.RepeatsExactlyWhenOverdue` says an accepted create repeats a loan
  still held exactly when the user has an overdue one, and
  `Witnesses.SameReaderTwice` is such a run with a single copy.
- That no more copies are lent than a book has. When creates overlap, the highest
  total so far can be exceeded, by at most one less than the creates of that book
  that overlap (`Interleaving.Overshoot`); no schedule exceeds it if and only if at
  most one create can be in flight (`Attainment.ExcessExactly`). Even a single one
  can be accepted for a book that no longer has the copies it loaded
  (`Witnesses.AcceptedAfterLowering`). With atomic requests the highest total is
  never exceeded, but the current one can be: exactly when an accepted update
  lowers it below the active loans
  (`AtomicRuns.ShortfallGrowsExactlyWhenShrunk`, `Witnesses.ShrunkBelowItsLoan`),
  and never on a run without such an update (`AtomicRuns.CurrentTotalBound`).
- The overdue service means to notify the borrowers it marks; its relation is
  evaluated again after the update, so those notified are those marked exactly
  when none is marked (`Histories.NotifiedExactlyWhenNoneMarked`).
  `Witnesses.MarkedAndNobodyNotified` marks one loan and notifies nobody.
- `can_borrow` announces the answer of a create for members. A librarian is
  shown false and accepted all the same, exactly when a copy is free and the
  librarian has no active loan of the book (`CanBorrow.FlagForetellsCreate`;
  `Witnesses.LibrarianShownFalseAndAccepted` is such a run). Similarly a text
  search is containment up to case exactly for texts without `%`, `_` and
  backslash (`Like.SearchIsContainmentExactlyWhenLiteral`, `Like.DecoyIsFound`).

## Model

| member | source | states |
|---|---|---|
| Interleaving.Overshoot | app/models/borrowing.rb:44-48 | On every schedule, active loans of a book plus creates about to insert one stay within its highest total so far plus m - 1, m being the most creates of that book that ever overlap |
| Interleaving.OvershootOfAll | config/puma.rb:10-12 | With at most k creates in flight at once, for whatever books, a book is over-lent by at most k - 1 |
| Interleaving.PairBound | app/models/borrowing.rb:38-42 | On every schedule the active loans one user has of one book, creates past the duplicate check included, are at most that user's creates of it that ever overlap |
| Attainment.BoundsAreAttained | db/schema.rb:43 | For every k and every total of at least 1 some schedule ends with total + k - 1 active loans and k of them with one user: nothing in the schema prevents it |
| Attainment.ExcessExactly | app/models/borrowing.rb:44-48 | No schedule lends more than d above the highest total if and only if at most d + 1 creates can be in flight; none at all (d = 0) if and only if at most one can |
| Attainment.RepeatsExactly | app/models/borrowing.rb:38-42 | No schedule gives a user more than d active loans of one book if and only if at most d creates can be in flight |
| Interleaving.ReachIsWellFormed | db/schema.rb:63-64 | Under any interleaving ids stay unique and every stored borrowing has its user and book |
| Interleaving.UpdateKeepsOutcome | app/models/book.rb:8-11 | Once a create has loaded the book, no update of it changes what either validator decides: the copies check compares with the loaded total |
| Witnesses.AcceptedAfterLowering | app/controllers/borrowings_controller.rb:67-69 | A single create in flight is accepted for a book whose total was lowered to 0 after it was loaded |
| Traces.EveryLoanHasItsCreate | app/models/borrowing.rb:32-48 | On every schedule every stored borrowing goes back to one create of its user and book: it loaded the book, then at its borrowing time found no active loan of the pair, then found fewer active loans than the total it had loaded, then was inserted while user and book existed, due 14 days after its borrowing time |
| AtomicRuns.AtomicIsOneSlot | app/controllers/borrowings_controller.rb:51-54 | An atomic run is the interleaved one with a single create in flight and nothing between its phases |
| AtomicRuns.AtomicBounds | app/models/book.rb:8-11 | With atomic requests active loans never exceed the book's highest total, nor one per user and book |
| AtomicRuns.UnreturnedOvershoot | app/models/borrowing.rb:14 | On every schedule the copies not returned are at most its highest total, plus one less than the overlapping creates of the book, plus its overdue loans |
| AtomicRuns.UnreturnedBound | app/models/borrowing.rb:14 | With atomic requests copies not returned exceed the highest total by at most the overdue ones, which do not count as active |
| AtomicRuns.RepeatsExactlyWhenOverdue | app/models/borrowing.rb:38-42 | An accepted create repeats a loan the user has not returned if and only if the user has an overdue loan of the book |
| Witnesses.SameReaderTwice | app/services/overdue_service.rb:3-9 | A run in which one reader holds the only copy and is accepted for it again |
| AtomicRuns.ShortfallGrowsExactlyWhenShrunk | app/controllers/books_controller.rb:37-43 | The excess of active loans over copies grows in a step if and only if the step is an accepted update of that book to a total below both its old total and its active loans |
| AtomicRuns.CurrentTotalBound | app/models/book.rb:8-11 | On any atomic run without an update that lowers the total below the active loans, the active loans never exceed the current total |
| Witnesses.ShrunkBelowItsLoan | app/controllers/books_controller.rb:37-43 | A run with atomic requests that leaves one active loan of a book with no copies |
| Loans.RunIsWellFormed | db/schema.rb:31-64 | After any run: unique ids, existing users and books behind every borrowing, unique ISBNs and e-mails, returned exactly when stamped |
| Loans.CommandsNeverActivate | app/models/borrowing.rb:26-28 | No request but a create raises the number of active loans of a book or of a user and book |
| Histories.StatusIsDerived | app/services/overdue_service.rb:3-9 | In every reachable state the stored status is a function of the return stamp, the due date and the day of the last marking |
| Histories.StatusAloneDecides | app/models/borrowing.rb:14 | Hence the null test in the active scope adds nothing, and the dashboard's borrowed-or-overdue loans are exactly the unreturned ones |
| Histories.RowsMoveForward | app/models/borrowing.rb:5 | The same id seen twice in a run is the same loan with the same dates, its status never going back; returned is final |
| Histories.MarkingsCompose | app/services/overdue_service.rb:2-15 | Marking on an earlier day and then a later one leaves the rows of the later marking alone, and the counts add up |
| Histories.NothingLeftToMark | app/services/overdue_service.rb:8-11 | After a marking nothing satisfies the marking's condition any more, and a second one changes nothing |
| Histories.NotifiedExactlyWhenNoneMarked | app/services/overdue_service.rb:8-13 | The loans notified are the loans marked if and only if none is marked; in every case nobody is notified |
| Witnesses.MarkedAndNobodyNotified | app/services/overdue_service.rb:10-13 | A run after which the service marks one loan and notifies nobody |
| Histories.MarkCommutesWithReturn | app/models/borrowing.rb:26-28 | Marking and returning any borrowing give the same rows in either order |
| Histories.MarkingMovesItsCount | app/controllers/dashboards_controller.rb:8-10 | A marking takes exactly its count of a book's rows from borrowed to overdue |
| Histories.LedgerBalances | app/controllers/dashboards_controller.rb:8-10 | Over any run, loans created are those borrowed, overdue, returned and cascade-deleted; those borrowed are created less first returns, markings and deletions while borrowed |
| Database.Library.CreateBorrowing | app/controllers/borrowings_controller.rb:51-54 | In place: unauthorized without a user, not found without the book, otherwise the duplicate and then the missing copies reported exactly when they hold; accepted exactly when neither does, with one more row of that user and book, borrowed now, due in 14 days |
| Database.Library.ReturnBorrowing | app/controllers/borrowings_controller.rb:56-63 | Accepted exactly for a librarian and an existing row, whose absence is answered before the role; that row is returned now, with the comment unless blank, and every other row, book and user stays |
| Database.Library.MarkOverdueBooks | app/services/overdue_service.rb:2-15 | In place: exactly the borrowed rows due before today become overdue, their number is returned, and those notified are the loans the relation finds after the update, which are none |
| Database.Library.SendOverdueNotifications | app/services/overdue_service.rb:19-28 | The loop visits the relation as it is when the loop runs, in order |
| Database.Library.ChangeBook | app/controllers/books_controller.rb:37-43 | Answers by role, existence and validity exactly; each attribute sent replaces the stored one and the others stay; a valid update is accepted even below the active count; loans and users are never touched |
| Database.Library.RemoveBook | app/controllers/books_controller.rb:45-48 | Accepted exactly for a librarian and an existing book; the book and exactly its borrowings disappear |
| Database.Library.ChangeMember | app/controllers/members_controller.rb:32-41 | Accepted exactly for a librarian, an existing member and an e-mail nobody else has; each attribute sent replaces the stored one, and the role survives |
| Database.Library.RemoveMember | app/controllers/members_controller.rb:43-46 | Accepted exactly for a librarian and an existing member, never for a librarian to be removed; the member and exactly their borrowings disappear |
| Responses.CreateAnswered | app/models/borrowing.rb:32-48 | For every state: which answer a create gets, its errors in order, and the one row an accepted create adds |
| Responses.ReturnAnswered | app/controllers/borrowings_controller.rb:56-71 | For every state: which answer a return gets and the one row an accepted return writes |
| Responses.MarkingAnswered | app/services/overdue_service.rb:3-9 | For every state: exactly the borrowed rows due before today become overdue, with nothing else changed |
| Responses.BookCreated | app/models/book.rb:4-6 | A book is stored exactly when a librarian sends one with every text present, a free ISBN and a total of at least 0 |
| Responses.BookUpdated | app/models/book.rb:4-6 | The same validity decides an update of the record with the attributes sent written over it |
| Responses.MemberCreated | app/controllers/members_controller.rb:22-30 | A member is created exactly when a librarian sends an e-mail nobody has, as a member whatever else was sent |
| Responses.AccountUpdated | app/controllers/accounts_controller.rb:8-14 | A user changes their own names and e-mail, not their role, refused exactly for an e-mail somebody else has |
| Relational.LeftJoinKeepsRows | app/models/book.rb:34-35 | A left join with at most one match per row neither drops nor multiplies rows |
| Relational.GroupCountCounts | app/models/book.rb:25-28 | One-pass grouping gives one group per key, holding the key's own count |
| CanBorrow.QueryIsTheRule | app/models/book.rb:21-38 | One row per book, each flag true exactly for a member with a free copy and no active loan of the book |
| CanBorrow.QueryWithoutUser | app/models/book.rb:22-23 | Without a user every book is listed and none offered |
| CanBorrow.FlagForetellsCreate | app/models/book.rb:37 | For members the flag is the answer of a create; the two differ exactly for librarians whose create is accepted |
| Witnesses.LibrarianShownFalseAndAccepted | app/models/book.rb:23-37 | A run after which the query shows a librarian false for a book and a create by that librarian is accepted |
| CanBorrow.OffersSurvive | app/models/book.rb:21-38 | Returns, markings and the removal of other books or members never turn an offer down |
| TopBooks.CountsAreTrue | app/models/book.rb:50-54 | One group per book with the true number of its borrowings, 0 and not 1 for a book never borrowed |
| TopBooks.TopIsTop | app/models/book.rb:49-55 | However ties fall: the asked number of distinct books, most borrowed first, none left out that was borrowed more |
| TopBooks.TopExists | app/models/book.rb:49-55 | Every table and every limit has such an answer |
| TopBooks.FlagsAreFound | app/controllers/dashboards_controller.rb:43-52 | Every top book finds its flag, and it is the rule's answer |
| Like.SearchIsContainmentExactlyWhenLiteral | app/models/borrowing.rb:20-23 | Under any case folding the search is containment up to case for all texts if and only if the search text has no wildcard or backslash |
| Like.DecoyIsFound | app/models/borrowing.rb:20-23 | For every search text with a wildcard or backslash, a text that is found without containing it |
| Like.MatchesExactlyWhenCut | app/models/borrowing.rb:20-23 | For every pattern: a text matches exactly when it can be cut into pieces, any piece for `%`, one character for `_`, and itself for any other or quoted character |
| Like.FixedSearchFits | app/models/borrowing.rb:20-23 | A search text without `%` and backslash is found exactly where it fits character by character up to case, `_` standing for exactly one character |
| TextSearch.SearchIsFilter | app/models/borrowing.rb:16-24 | Two joins and five tests under three-valued logic keep exactly the borrowings with a matching field that is not NULL, each once and in order |
| TextSearch.FoundExactly | app/models/borrowing.rb:16-24 | For every search text, a borrowing is found exactly when the text between two `%` can be cut along its title, author, e-mail, first name or last name, a missing name never being found |
| TextSearch.LiteralHit | app/models/borrowing.rb:20-23 | For a search text without wildcards a borrowing matches exactly when some field of it that is not NULL contains the text up to case |
| Listing.StorageOrderIrrelevant | app/controllers/borrowings_controller.rb:37-43 | The order with its id tie-break leaves one listing, whatever order rows are stored in |
| Listing.DescendingIsReverse | app/controllers/borrowings_controller.rb:34-43 | For both sort keys the descending listing is the ascending one reversed, ties included |
| Listing.Scope | app/controllers/borrowings_controller.rb:5-30 | The scope narrowed step by step is the rows the viewer may see that pass every filter given |
| Listing.Index | app/controllers/borrowings_controller.rb:5-49 | The whole answer is the viewer's own loans, or all for a librarian, that pass every filter, by due date ascending or borrowing time descending unless the direction says otherwise, ids breaking ties the same way; a page is its 25 rows from 25 (page - 1) on, page 1 for a page not positive |
| Paging.PagesOfAnswer | frontend/src/pages/librarian/Borrowings.tsx:236-243 | After m presses of Next the page is 1 + min(m, floor(n / 25)), n being the number of borrowings the query selects |
| Paging.WalkShowsTheSelection | app/controllers/borrowings_controller.rb:37-49 | Pressing Next until it is disabled has shown exactly those borrowings, each once, in that order column by column, and ends on page 1 + floor(n / 25), also when n is a multiple of 25 |
| Paging.BorrowingsPage.PressNext | frontend/src/pages/librarian/Borrowings.tsx:236-243 | Next moves one page exactly while the page is full, and the page shown stays within the listing |
| Paging.BorrowingsPage.PressPrev | frontend/src/pages/librarian/Borrowings.tsx:235 | Prev undoes a Next that moved and stops at page 1 |
| Paging.BorrowingsPage.Change | frontend/src/pages/librarian/Borrowings.tsx:75-100 | A changed filter shows page 1 of the new listing |
| DueDates.BadgeAgainstHighlight | frontend/src/pages/member/Dashboard.tsx:25-31 | At any fixed offset the badge's day count is the highlight's or one less; one less exactly when the local day is ahead; equal in UTC |
| DueDates.OverdueWithoutHighlight | frontend/src/pages/member/Dashboard.tsx:137-144 | A card says overdue without the red highlight exactly on the due day while the local day is ahead, never the other way round |
| DueDates.BadgeIsTheWindow | frontend/src/pages/librarian/Borrowings.tsx:170-180 | "Due soon" appears exactly for the rows in the dashboards' today to today + 3 window, naming the days left |
| DueDates.PlainBadgeOnMarkingDay | app/controllers/dashboards_controller.rb:9 | In every reachable state, on the day of the last marking, a borrowed row has a plain badge if and only if it is due more than three days ahead |
| DueDates.CardsAreUnreturned | frontend/src/pages/member/Dashboard.tsx:137-144 | In every reachable state the cards are the member's unreturned loans, red exactly when due before today and amber exactly when due from today to three days ahead |
| DueDates.CardsAgainstAlerts | app/controllers/dashboards_controller.rb:54-58 | In every reachable state a member's amber cards number the due-soon alert, and the red ones the overdue alert plus the late loans not yet marked |
| Seed.IsbnsDiffer | lib/tasks/bestsellers.rake:114 | Different numbers have different ISBNs, of length 13 exactly below 10^10 |
| Seed.IsbnFormat | lib/tasks/bestsellers.rake:114 | An ISBN is 999 and then only digits, at least ten and padded no further |
| Seed.SaveEntry | lib/tasks/bestsellers.rake:116-131 | One entry: found or created by ISBN, then holding the entry's title, author, genre and ten copies; saved only when it differs, everything else untouched |
| Seed.SeedBestsellers | lib/tasks/bestsellers.rake:112-132 | All entries stored under their own ISBNs with ten copies, no other ISBN touched, ISBNs unique, counts exact, and a further run reports 0 and 0 and changes nothing |

## Left out

- Devise, sessions, CSRF, CORS, HTTP parsing and JSON rendering: library behaviour and plumbing. Parameters arrive parsed and the search text stripped.
- Devise's account cancellation, which can remove a librarian and their borrowings, and password changes: neither is a request of the model.
- Database.Library.ChangeMember: Devise's e-mail format and password rules are not modelled, only that an e-mail is unique, because they would only add refusals; e-mails arrive stripped and in lower case.
- Responses.MemberCreated: the same rules of Devise are left out here, for the same reason.
- Responses.AccountUpdated: the same rules of Devise are left out here, for the same reason.
- Book search by title, author or genre and member search by name or e-mail: the same LIKE pattern as the borrowings search.
- Page completeness of the books and members listings: neither has a total order.
- Stale pages in the client: a press and the reload it causes are one step, so pressing Next twice before the answer arrives is not modelled.
- PostgreSQL internals: each statement reads a committed snapshot, and each insert, update and cascading destroy commits at once.
- LIKE patterns ending in a lone backslash, an error in PostgreSQL: the searches always end their pattern in `%`.
- Case folding is any per-character folding that keeps `%`, `_` and backslash and makes no others, and blank text is ASCII white space; Unicode beyond that is not modelled.
- Real time zones and daylight saving: a fixed offset stands for the client's zone, and the server runs in UTC.
- Bestseller validations: the list's fields are assumed present, as they are in the source, so `save!` does not raise.
- The random sample borrowings of lib/tasks/borrowings.rake: they bypass the date relations of the requests and are not steps of a run.
