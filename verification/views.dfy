/** The library's loan views: the home page counts and visit counter, the
    librarian's renewal view, and the two "on loan" lists. The database is a
    value passed in (a `Store`, or the sequence of stored copies), the
    session is a map, and today's date is a parameter. */
module Views {
  import opened Results
  import opened Calendar
  import opened Forms
  import opened Catalogue
  import opened LoanLists

  // ---------------------------------------------------------------------
  // Home page

  /** The tables the home page counts. */
  datatype Store = Store(books: seq<Book>, instances: seq<BookInstance>, authors: seq<Author>)

  /** A visitor's session data. */
  type Session = map<string, int>

  const NumVisitsKey: string := "num_visits"

  /** The template context of the home page. */
  datatype IndexContext = IndexContext(
    numBooks: nat,
    numInstances: nat,
    numInstancesAvailable: nat,
    numAuthors: nat,
    numVisits: int)

  /** The filter `status__exact=v`. */
  function HasStatus(v: StatusValue): BookInstance -> bool
  {
    (b: BookInstance) => b.status == v
  }

  /** The number of copies whose status is `v`, counted one copy at a time. */
  function CountStatus(s: seq<BookInstance>, v: StatusValue): nat
  {
    if |s| == 0 then 0 else (if s[0].status == v then 1 else 0) + CountStatus(s[1..], v)
  }

  /** `filter(status__exact=v).count()` is the number of copies with status `v`. */
  lemma {:induction false} FilterCountsStatus(s: seq<BookInstance>, v: StatusValue)
    ensures |Filter(s, HasStatus(v))| == CountStatus(s, v)
  {
    if |s| > 0 {
      FilterCountsStatus(s[1..], v);
    }
  }

  /** The visit counter: read `num_visits` (0 when absent), store it plus one,
      and report the value read. */
  function Visit(session: Session): (r: (int, Session))
    ensures r.0 == (if NumVisitsKey in session then session[NumVisitsKey] else 0)
    ensures NumVisitsKey in r.1 && r.1[NumVisitsKey] == r.0 + 1
    ensures r.1.Keys == session.Keys + {NumVisitsKey}
    ensures forall k :: k in session && k != NumVisitsKey ==> r.1[k] == session[k]
  {
    var seen := if NumVisitsKey in session then session[NumVisitsKey] else 0;
    (seen, session[NumVisitsKey := seen + 1])
  }

  /** The `index` view: the counts of books, copies, available copies and
      authors, and the visit count before this visit. */
  function Index(store: Store, session: Session): (r: (IndexContext, Session))
    ensures r.0.numInstancesAvailable <= r.0.numInstances == |store.instances|
    ensures r.0.numInstancesAvailable == CountStatus(store.instances, Status(Available))
    ensures r.0.numBooks == |store.books| && r.0.numAuthors == |store.authors|
    ensures r.0.numVisits == (if NumVisitsKey in session then session[NumVisitsKey] else 0)
    ensures NumVisitsKey in r.1 && r.1[NumVisitsKey] == r.0.numVisits + 1
    ensures forall k :: k in session && k != NumVisitsKey ==> k in r.1 && r.1[k] == session[k]
    ensures r.1.Keys == session.Keys + {NumVisitsKey}
  {
    var (visits, session') := Visit(session);
    FilterCountsStatus(store.instances, Status(Available));
    (IndexContext(
      |store.books|,
      |store.instances|,
      |Filter(store.instances, HasStatus(Status(Available)))|,
      |store.authors|,
      visits),
     session')
  }

  /** Every copy has exactly one status value, so the counts per status
      (blank and the four coded ones) add up to the number of copies. */
  lemma {:induction false} StatusCountsPartition(s: seq<BookInstance>)
    ensures CountStatus(s, Blank) + CountStatus(s, Status(Maintenance)) + CountStatus(s, Status(OnLoan))
            + CountStatus(s, Status(Available)) + CountStatus(s, Status(Reserved)) == |s|
  {
    if |s| > 0 {
      StatusCountsPartition(s[1..]);
      match s[0].status
      case Blank =>
      case Status(st) =>
        match st
        case Maintenance =>
        case OnLoan =>
        case Available =>
        case Reserved =>
    }
  }

  /** The home page's session update is the visit counter's, so what is
      proved about repeated `Visit` calls holds for repeated home-page requests. */
  lemma IndexVisitIsVisit(store: Store, session: Session)
    ensures Index(store, session).0.numVisits == Visit(session).0
    ensures Index(store, session).1 == Visit(session).1
  {
  }

  /** The visit counts reported by `n` consecutive home-page requests in one session. */
  function ReportedVisits(session: Session, n: nat): (r: seq<int>)
    ensures |r| == n
    ensures n > 0 ==> r[0] == (if NumVisitsKey in session then session[NumVisitsKey] else 0)
    decreases n
  {
    if n == 0 then [] else [Visit(session).0] + ReportedVisits(Visit(session).1, n - 1)
  }

  /** The session after `n` consecutive home-page requests. */
  function SessionAfterVisits(session: Session, n: nat): Session
    decreases n
  {
    if n == 0 then session else SessionAfterVisits(Visit(session).1, n - 1)
  }

  /** Consecutive requests report 0, 1, 2, ... from a fresh session (in
      general, counting up from the stored value), and the session then holds
      the number of requests made. */
  lemma {:induction false} VisitsCountUp(session: Session, n: nat)
    decreases n
    ensures var start := if NumVisitsKey in session then session[NumVisitsKey] else 0;
      && (forall i :: 0 <= i < n ==> ReportedVisits(session, n)[i] == start + i)
      && (n > 0 ==> NumVisitsKey in SessionAfterVisits(session, n)
                    && SessionAfterVisits(session, n)[NumVisitsKey] == start + n)
  {
    if n > 0 {
      var next := Visit(session).1;
      VisitsCountUp(next, n - 1);
      var start := if NumVisitsKey in session then session[NumVisitsKey] else 0;
      assert next[NumVisitsKey] == start + 1;
      forall i | 0 <= i < n ensures ReportedVisits(session, n)[i] == start + i {
        if i > 0 {
          assert ReportedVisits(session, n)[i] == ReportedVisits(next, n - 1)[i - 1];
        }
      }
    }
  }

  // ---------------------------------------------------------------------
  // Renewal by a librarian

  /** The proposed renewal offset of the unbound form: `timedelta(weeks=3)`. */
  const ProposedRenewalOffset: nat := Weeks(3)

  /** The date pre-filled into the renewal form: three weeks from today, or
      `None` where that date is past the last representable date. The
      proposal always lies in the accepted window, and the validator accepts
      it whenever the window's upper end is itself a date. */
  function ProposedRenewalDate(today: Date): (r: Option<Date>)
    ensures r.Some? <==> today + ProposedRenewalOffset <= MaxOrdinal
    ensures r.Some? ==> InRenewalWindow(r.value, today) && r.value - today == ProposedRenewalOffset
    ensures r.Some? && today + RenewalWindow <= MaxOrdinal ==> CleanRenewalDate(r.value, today) == Ok(r.value)
  {
    AddDays(today, ProposedRenewalOffset)
  }

  /** The HTTP method and, for a POST, the submitted renewal date field. */
  datatype Request = Post(renewalDate: Submission) | NotPost

  /** The renewal form as rendered: unbound with the proposed date, or bound
      to a submission that failed validation. */
  datatype RenewForm = Unbound(initial: Date) | Bound(submitted: Submission, error: FormError)

  datatype Response =
    | NotFound                      // get_object_or_404 found no copy
    | ServerError                   // an OverflowError escaped the view
    | RedirectAllBorrowed           // the renewal was saved
    | RenderRenewForm(form: RenewForm, instance: BookInstance)

  /** What a request produces: the response and the stored copies afterwards. */
  datatype Handled = Handled(response: Response, instances: seq<BookInstance>)

  /** `get_object_or_404(BookInstance, pk=pk)`: the position of the copy with
      that key. Keys are unique in the store; the first match is taken. */
  function FindInstance(s: seq<BookInstance>, pk: Uuid): (r: Option<nat>)
    ensures r.Some? ==> r.value < |s| && s[r.value].id == pk
    ensures r.Some? ==> forall j :: 0 <= j < r.value ==> s[j].id != pk
    ensures r.None? <==> forall i :: 0 <= i < |s| ==> s[i].id != pk
  {
    if |s| == 0 then None
    else if s[0].id == pk then Some(0)
    else match FindInstance(s[1..], pk)
      case None => None
      case Some(k) => Some(k + 1)
  }

  /** Whether a request to renew copy `pk` is a valid renewal POST: the copy
      exists and the submitted date lies in the window, which itself ends
      on a representable date. */
  predicate AcceptedRenewal(s: seq<BookInstance>, pk: Uuid, req: Request, today: Date)
  {
    && (exists i :: 0 <= i < |s| && s[i].id == pk)
    && req.Post? && req.renewalDate.Entered?
    && InRenewalWindow(req.renewalDate.date, today)
    && today + RenewalWindow <= MaxOrdinal
  }

  /** The `renew_book_librarian` view. Only an accepted POST writes, and it
      writes the submitted date into the found copy's `due_back` and nothing
      else; every other request leaves the store as it was. */
  function RenewBookLibrarian(s: seq<BookInstance>, pk: Uuid, req: Request, today: Date): (r: Handled)
    ensures r.response == RedirectAllBorrowed <==> AcceptedRenewal(s, pk, req, today)
    ensures r.response != RedirectAllBorrowed ==> r.instances == s
    ensures r.response == RedirectAllBorrowed ==>
      var i := FindInstance(s, pk).value;
      && |r.instances| == |s|
      && r.instances[i] == s[i].(dueBack := Some(req.renewalDate.date))
      && (forall j :: 0 <= j < |s| && j != i ==> r.instances[j] == s[j])
    ensures r.response == NotFound <==> forall i :: 0 <= i < |s| ==> s[i].id != pk
    ensures r.response.RenderRenewForm? ==> r.response.instance.id == pk
    ensures req.NotPost? && FindInstance(s, pk).Some? && today + ProposedRenewalOffset <= MaxOrdinal ==>
      r.response == RenderRenewForm(Unbound(today + ProposedRenewalOffset), s[FindInstance(s, pk).value])
    ensures req.Post? && FindInstance(s, pk).Some? && ValidateRenewForm(req.renewalDate, today).Err?
            && ValidateRenewForm(req.renewalDate, today).error != Rejected(DateOverflow) ==>
      r.response == RenderRenewForm(Bound(req.renewalDate, ValidateRenewForm(req.renewalDate, today).error),
                                    s[FindInstance(s, pk).value])
    ensures r.response == ServerError <==>
      && FindInstance(s, pk).Some?
      && ((req.NotPost? && MaxOrdinal < today + ProposedRenewalOffset)
          || (req.Post? && ValidateRenewForm(req.renewalDate, today) == Err(Rejected(DateOverflow))))
  {
    match FindInstance(s, pk)
    case None => Handled(NotFound, s)
    case Some(i) =>
      var copy := s[i];
      match req
      case NotPost =>
        (match ProposedRenewalDate(today)
         case None => Handled(ServerError, s)
         case Some(proposed) => Handled(RenderRenewForm(Unbound(proposed), copy), s))
      case Post(submitted) =>
        match ValidateRenewForm(submitted, today)
        case Ok(d) => Handled(RedirectAllBorrowed, s[i := copy.(dueBack := Some(d))])
        case Err(Rejected(DateOverflow)) => Handled(ServerError, s)
        case Err(e) => Handled(RenderRenewForm(Bound(submitted, e), copy), s)
  }

  /** A saved renewal leaves the copy not overdue today, with the same key,
      book, imprint, borrower and status as before. */
  lemma RenewedCopyNotOverdue(s: seq<BookInstance>, pk: Uuid, req: Request, today: Date)
    requires AcceptedRenewal(s, pk, req, today)
    ensures var i := FindInstance(s, pk).value;
      var renewed := RenewBookLibrarian(s, pk, req, today).instances[i];
      && !IsOverdue(renewed, today)
      && renewed.id == s[i].id && renewed.book == s[i].book && renewed.imprint == s[i].imprint
      && renewed.borrower == s[i].borrower && renewed.status == s[i].status
  {
  }

  // ---------------------------------------------------------------------
  // The "on loan" lists

  /** The filter `borrower=user`. */
  function BorrowedBy(user: UserId): BookInstance -> bool
  {
    (b: BookInstance) => b.borrower == Some(user)
  }

  /** `LoanedBooksByUserListView.get_queryset`: the user's copies that are on
      loan, ordered by due date. */
  function LoanedBooksByUser(s: seq<BookInstance>, user: UserId, nullsFirst: bool): (r: seq<BookInstance>)
    ensures forall b :: multiset(r)[b] == (if BorrowedBy(user)(b) && HasStatus(Status(OnLoan))(b) then multiset(s)[b] else 0)
    ensures forall b :: b in r <==> b in s && b.borrower == Some(user) && b.status == Status(OnLoan)
    ensures SortedByDue(r, nullsFirst) && PresentDatesAscending(r)
  {
    var r := OrderByDue(Filter(Filter(s, BorrowedBy(user)), HasStatus(Status(OnLoan))), nullsFirst);
    SortedHasPresentDatesAscending(r, nullsFirst);
    assert forall b :: b in r <==> multiset(r)[b] > 0;
    r
  }

  /** `LoanedBooksAllListView.get_queryset`: every copy on loan, ordered by
      due date. */
  function LoanedBooksAll(s: seq<BookInstance>, nullsFirst: bool): (r: seq<BookInstance>)
    ensures forall b :: multiset(r)[b] == if b.status == Status(OnLoan) then multiset(s)[b] else 0
    ensures forall b :: b in r <==> b in s && b.status == Status(OnLoan)
    ensures SortedByDue(r, nullsFirst) && PresentDatesAscending(r)
  {
    var r := OrderByDue(Filter(s, HasStatus(Status(OnLoan))), nullsFirst);
    SortedHasPresentDatesAscending(r, nullsFirst);
    assert forall b :: b in r <==> multiset(r)[b] > 0;
    r
  }

  /** A freshly created copy is not overdue on any day and appears in no
      "on loan" list: its default status is maintenance and it has no due
      date or borrower. */
  lemma NewCopyNotOnLoan(id: Uuid, book: Option<nat>, imprint: string, today: Date,
                         s: seq<BookInstance>, user: UserId, nullsFirst: bool)
    ensures !IsOverdue(NewBookInstance(id, book, imprint), today)
    ensures NewBookInstance(id, book, imprint) !in LoanedBooksAll(s, nullsFirst)
    ensures NewBookInstance(id, book, imprint) !in LoanedBooksByUser(s, user, nullsFirst)
  {
  }

  /** Each user's list is part of the list of all loans, copy for copy. */
  lemma UserLoansWithinAllLoans(s: seq<BookInstance>, user: UserId, nullsFirst: bool)
    ensures multiset(LoanedBooksByUser(s, user, nullsFirst)) <= multiset(LoanedBooksAll(s, nullsFirst))
    ensures |LoanedBooksByUser(s, user, nullsFirst)| <= |LoanedBooksAll(s, nullsFirst)|
  {
    var mine := multiset(LoanedBooksByUser(s, user, nullsFirst));
    var all := multiset(LoanedBooksAll(s, nullsFirst));
    assert forall b :: mine[b] <= all[b];
    assert mine <= all;
    assert |mine| <= |all| by { SubMultisetSize(mine, all); }
  }

  /** A sub-multiset has no more elements. */
  lemma {:induction false} SubMultisetSize<T>(a: multiset<T>, b: multiset<T>)
    requires a <= b
    ensures |a| <= |b|
    decreases |a|
  {
    if |a| > 0 {
      var x :| x in a;
      SubMultisetSize(a[x := a[x] - 1], b[x := b[x] - 1]);
    }
  }
}
