# Library loan rules of the catalogue application

This project models, in Dafny, the book-loan rules of the `polls` app of a
Django catalogue site (books, films, games):

- **Renewal validation** (`RenewBookForm.clean_renewal_date`): a librarian may
  move a copy's due date to any day from today up to and including today + 4
  weeks. Earlier dates are refused as "renewal in past" and later ones as
  "renewal more than 4 weeks ahead".
- **Book copies** (`BookInstance`): the four loan statuses and their codes
  (`m`, `o`, `a`, `r`), the blank value, the default status `m`, and the
  overdue predicate.
- **Display helpers**: `Book.display_genre` (the first three genre names,
  joined with ", ") and the "last, first" rendering of authors, actors and
  directors.
- **Loan views**: the home page's counts and per-session visit counter, the
  librarian's renewal view (the default proposal of today + 3 weeks and the
  `due_back` update), and the two "on loan" lists (filtered by status and
  borrower, ordered by `due_back`).

Modelling choices:

- **Dates** are day numbers: the proleptic Gregorian ordinal, as Python's
  `date.toordinal()` gives it, from 1 (0001-01-01) to 3652059 (9999-12-31).
  Adding a `timedelta` adds days. A sum past the last date raises
  OverflowError in Python. The model returns `None` for it (`Calendar.AddDays`).
  The validator reports it as `DateOverflow`, and the renewal view answers it
  with a server error.
- **Today** (`datetime.date.today()`) is an explicit parameter.
- **The database** is a value: a `Store` of books, copies and authors, or a
  sequence of copies. Identifiers are opaque numbers. Saving a copy replaces
  it in the sequence.
- **The session** is a `map<string, int>`.
- **The status column** is a `StatusValue`: `Blank` or one of the four
  `LoanStatus` values. `StatusField` and `ParseStatusField` relate it to the
  one-character text stored in the column.
- **Ordering by `due_back`** takes a `nullsFirst` flag, because where copies
  without a due date go depends on the database backend. The promised order is
  stated over the copies that have a due date (`PresentDatesAscending`).

Modules: `Results` (option and result types), `Calendar` (dates), `Forms`
(forms.py), `Catalogue` (models.py), `LoanLists` (the filtering and ordering
behind the list views), `Views` (views.py).

## Model

| member | source | states |
|---|---|---|
| Calendar.AddDays | polls/forms.py:76 | Adding days to a date gives a date that far away, or no date exactly when the sum leaves the range 0001-01-01..9999-12-31 (Python's OverflowError). |
| Forms.CleanRenewalDate | polls/forms.py:69-81 | A date is refused as "in past" exactly when it is before today. It is refused as "more than 4 weeks ahead" exactly when it is after today + 28 days. It is accepted exactly when it lies in the closed window [today, today + 28], both ends included, provided today + 28 is itself a representable date. An accepted date is returned unchanged. |
| Forms.ValidateRenewForm | polls/forms.py:64-81 | A missing or empty date field makes the form invalid with the "required" error, and text that is not a date with the "invalid" error; neither reaches the cleaning method. Otherwise the form is valid exactly when the cleaning method accepts the date, and the cleaned value is the submitted date. A refused date carries the cleaning method's reason. |
| Forms.Message | polls/forms.py:74-78 | The two validation errors, and only they, carry the text "Invalid date - " followed by their reason. |
| Forms.MessageIdentifiesReason | polls/forms.py:74-78 | Different refusals have different texts. |
| Forms.RefusalReasonsDisjoint | polls/forms.py:73-78 | No date gets both refusals: a date refused as past is not beyond the window, and a date refused as too far ahead is not before today. The two messages differ. |
| Forms.CleanIdempotent | polls/forms.py:69-81 | Cleaning an accepted date again on the same day accepts it again with the same value. |
| Catalogue.FromCode | polls/models.py:116-121 | A code is recognised only if the choices table lists it, paired with that status's label. An unrecognised code appears in no row of the table. |
| Catalogue.ChoicesTableMatchesStatuses | polls/models.py:116-121 | The choices table has exactly four rows with distinct codes. Each status appears in it with its own code and label. Code and lookup are inverse to each other. |
| Catalogue.ParseStatusField | polls/models.py:123-127 | Only text of length at most 1 is a valid status. The empty text is valid and is the blank status (`blank=True`). |
| Catalogue.StatusFieldRoundTrip | polls/models.py:123-127 | Storing a status value and validating the stored text gives the value back. Every text that validates is the stored form of its value. |
| Catalogue.NewBookInstance | polls/models.py:103-129 | A new copy has status `m` (Maintenance), no due date and no borrower. It keeps the given key, book and imprint. |
| Catalogue.IsOverdue | polls/models.py:110-114 | A copy with no due date is never overdue, and a copy due today is not overdue. A copy is overdue exactly when it has a due date before today. |
| Catalogue.OverdueFacts | polls/models.py:110-114 | Once overdue, a copy stays overdue on every later day. A copy is not overdue on any day up to and including its due date. |
| Catalogue.Join | polls/models.py:96 | Joining no strings gives "". Joining strings gives text as long as the strings plus one separator between each pair, and it starts with the first string. |
| Catalogue.DisplayGenre | polls/models.py:94-96 | A book with no genre displays the empty string. |
| Catalogue.DisplayGenreCases | polls/models.py:94-96 | The genre display is "", the single name, "a, b", or the first three names "a, b, c" in store order. A fourth or later genre never shows. |
| Catalogue.DisplayGenreIgnoresLaterGenres | polls/models.py:96 | Adding genres after the first three does not change the display. |
| Catalogue.DisplayName | polls/models.py:154-156 | The displayed name is the last name, then ", ", then the first name, each part at its own position. With a comma-free last name, the display is read back into exactly both names. |
| Catalogue.SplitDisplayName | polls/models.py:154-156 | Whenever a display text is read back into two name parts, rendering those parts gives the text again. |
| Catalogue.DisplayNameRoundTrip | polls/models.py:154-156 | When the last name contains no comma, reading the display back gives exactly the last and first name. |
| Catalogue.AuthorStr | polls/models.py:154-156 | An author displays as the last name, ", ", then the first name. With a comma-free last name, the display is read back into exactly both names. |
| Catalogue.ActorStr | polls/models.py:193-194 | An actor displays as the last name, ", ", then the first name. With a comma-free last name, the display is read back into exactly both names. |
| Catalogue.DirectorStr | polls/models.py:203-204 | A director displays as the last name, ", ", then the first name. With a comma-free last name, the display is read back into exactly both names. |
| LoanLists.Filter | polls/views.py:186 | A filtered list keeps exactly the copies that pass the filter, each as often as in the store. It drops every other copy and is never longer than the store. |
| LoanLists.Insert | polls/views.py:186 | Inserting a copy into a list adds exactly that copy. |
| LoanLists.InsertSorted | polls/views.py:186 | Inserting into a due-date-ordered list keeps it ordered. A common lower bound of the list and the new copy bounds the result. |
| LoanLists.OrderByDue | polls/views.py:197 | Ordering by due date gives the same copies, as a multiset, in non-decreasing due-date order (absent dates all first or all last). |
| LoanLists.SortedHasPresentDatesAscending | polls/views.py:197 | A due-date-ordered list is ascending on the copies that have a due date, whichever end the absent dates go to. The absent dates form one block at that end. |
| Views.FilterCountsStatus | polls/views.py:30 | The size of the filter `status__exact=v` equals the number of copies whose status is `v`, counted copy by copy. |
| Views.Visit | polls/views.py:36-37 | The visit counter reports the stored count, or 0 when there is none, and stores that value plus one. Every other session key is unchanged. |
| Views.Index | polls/views.py:22-48 | The home page counts books, copies and authors. Its count of available copies is the number of copies with status `a`, never more than the number of copies. It reports the visit count from before this visit, stores that count plus one, adds no session key other than `num_visits`, and leaves other session keys alone. |
| Views.StatusCountsPartition | polls/views.py:27-30 | The counts of copies per status value (blank, `m`, `o`, `a`, `r`) add up to the number of copies. |
| Views.IndexVisitIsVisit | polls/views.py:36-37 | A home-page request reports and stores exactly what the visit counter does, so the facts about repeated visits are facts about repeated home-page requests. |
| Views.VisitsCountUp | polls/views.py:36-44 | Consecutive home-page requests in one session report 0, 1, 2, ... from a fresh session (or count up from the stored value). After n requests the session holds the start value plus n. |
| Views.ProposedRenewalDate | polls/views.py:228-230 | The proposed renewal date is today + 21 days, absent only when that is past the last date. It always lies in the renewal window, and the validator accepts it whenever today + 28 is representable. |
| Views.FindInstance | polls/views.py:210 | Looking up a copy by key finds the first copy with that key. It finds none exactly when no stored copy has that key. |
| Views.RenewBookLibrarian | polls/views.py:208-237 | An unknown key gives "not found". The view redirects exactly when a POST submits a date inside the window [today, today + 28] for an existing copy and today + 28 days is a representable date. Then only that copy's `due_back` changes, to the submitted date, and every other copy is unchanged. Any other request leaves the store unchanged. A GET-like request renders the form proposed with today + 21 days. A refused POST re-renders the page with the bound form and its error. A server error happens exactly when the copy exists and either a GET's proposal of today + 21 days overflows the last date, or a POST's parsed date is not before today and today + 28 days overflows; a POST with a missing field or a past date re-renders the form even on the last date. |
| Views.RenewedCopyNotOverdue | polls/views.py:219-222 | After a saved renewal the copy is not overdue today. Its key, book, imprint, borrower and status are as before. |
| Views.LoanedBooksByUser | polls/views.py:185-186 | The user's loan list holds exactly the copies borrowed by that user with status `o`, each as often as stored. It is ordered by due date, ascending over present dates. |
| Views.LoanedBooksAll | polls/views.py:196-197 | The all-loans list holds exactly the copies with status `o`, each as often as stored. It is ordered by due date, ascending over present dates. |
| Views.NewCopyNotOnLoan | polls/models.py:110-127 | A freshly created copy (status `m`, no due date, no borrower) is not overdue on any day and is in neither the user's nor the all-loans list. |
| Views.UserLoansWithinAllLoans | polls/views.py:185-197 | Every user's loan list is contained, copy for copy, in the list of all loans, and is no longer than it. |

## Left out

- Django plumbing: the generic list, detail, create, update and delete views; templates and rendering; `reverse`/`reverse_lazy`; URL routing (`polls/urls.py`); and pagination (`paginate_by = 10` on the loan lists, whose querysets are modelled in full).
- Authentication and permissions: `LoginRequiredMixin`, `PermissionRequiredMixin`, `test_func`, the `login_required`/`permission_required` decorators on the renewal view, `SignUpView`, `EditUserForm` and `PasswordChangingForm`. The model assumes the request got past them.
- The ModelForms (`GameForm`, `MovieForm`, `SeriesForm`, `ActorForm`, `DirectorForm`, `UserProfileEditForm`) and `DateInput`: declarative widget configuration without behaviour.
- Admin registrations (`polls/admin.py`) and the app configs (`polls/apps.py`).
- ORM persistence, `uuid.uuid4` key generation and the clock: the store is a value, keys are opaque numbers, and today is a parameter. Key uniqueness is the database's job; `Views.FindInstance` takes the first match.
- Parsing of the submitted date text by `forms.DateField` (input formats, localisation): a submission arrives as missing, unparseable or a parsed date.
- Forms.Message: gives the untranslated source text. The two validation messages are wrapped in `gettext_lazy` (polls/forms.py:8, :74, :77-78), so the text a user sees depends on the active language and the project's translation catalogues, which the model does not represent.
- Views.RenewBookLibrarian: treats each request as one atomic step on a single store value. Interleaved requests are not represented. The `save()` at polls/views.py:222 writes every column back from the row read at :210, so a concurrent change to the copy's `status` or `borrower` is lost, and "only `due_back` changes" holds against that snapshot. Likewise, two concurrent home-page requests can lose a `num_visits` increment (polls/views.py:36-37); `Views.VisitsCountUp` covers consecutive requests only.
- Forms.CleanRenewalDate: uses one `today` for both comparisons, while the source calls `date.today()` twice (polls/forms.py:73 and :76); a request that crosses midnight between the two calls compares against two different days, which the model does not represent.
- The store is assumed to hold only status texts that pass field validation (the four codes or the empty text): Django checks `choices` only in `full_clean()`, while `save()` stores any text in the `status` column. `Views.StatusCountsPartition` relies on this, because `StatusValue` has no other value.
- Where the database puts copies without a due date in `order_by('due_back')`, and the order among copies with equal due dates: both depend on the backend. Contracts state the order over present dates, with the absent-date placement as a parameter.
- `Meta.ordering` of `Book`, `Author` and `Developer`, and `BookInstance`'s `ordering = ['due_back']` (polls/models.py:132; both loan lists call `order_by('due_back')` themselves), `get_absolute_url`, `BookInstance.__str__`, and the `__str__` of `Genre`, `Language`, `Game`, `Developer` and the other one-field models (each returns a field unchanged).
- The `Person` name defaults (`'first name'`, `'last name'`) and the models used only by the film and game screens.
- Determinism of the validator: every Dafny function returns the same result for the same arguments, so it needs no separate statement.
