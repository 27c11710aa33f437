/** The catalogue records behind the library: genres, books, book copies
    (`BookInstance`) with their loan status, and the people whose names are
    displayed as "last, first". Identifiers are opaque numbers. */
module Catalogue {
  import opened Results
  import opened Calendar

  type UserId = nat
  type AuthorId = nat
  type LanguageId = nat

  /** A copy's primary key, generated by `uuid.uuid4`; its value is not modelled. */
  datatype Uuid = Uuid(bits: nat)

  // ---------------------------------------------------------------------
  // Loan status

  /** The four loan states of `BookInstance.LOAN_STATUS`. */
  datatype LoanStatus = Maintenance | OnLoan | Available | Reserved

  /** The one-character code stored in the database for a status. */
  function Code(s: LoanStatus): char
  {
    match s
    case Maintenance => 'm'
    case OnLoan => 'o'
    case Available => 'a'
    case Reserved => 'r'
  }

  /** The human-readable label paired with a status. */
  function Label(s: LoanStatus): string
  {
    match s
    case Maintenance => "Maintenance"
    case OnLoan => "On loan"
    case Available => "Available"
    case Reserved => "Reserved"
  }

  /** The choices table, in declaration order. */
  const LoanStatusChoices: seq<(char, string)> :=
    [('m', "Maintenance"), ('o', "On loan"), ('a', "Available"), ('r', "Reserved")]

  /** Looks a code up in the choices table. */
  function FromCode(c: char): (r: Option<LoanStatus>)
    ensures r.Some? ==> (c, Label(r.value)) in LoanStatusChoices
    ensures r.None? ==> forall i :: 0 <= i < |LoanStatusChoices| ==> LoanStatusChoices[i].0 != c
  {
    if c == 'm' then Some(Maintenance)
    else if c == 'o' then Some(OnLoan)
    else if c == 'a' then Some(Available)
    else if c == 'r' then Some(Reserved)
    else None
  }

  /** The choices table lists every status exactly once, each with its own
      code and label, and no two statuses share a code. */
  lemma ChoicesTableMatchesStatuses(s: LoanStatus, c: char)
    ensures (Code(s), Label(s)) in LoanStatusChoices
    ensures |LoanStatusChoices| == 4
    ensures forall i, j :: 0 <= i < j < |LoanStatusChoices| ==> LoanStatusChoices[i].0 != LoanStatusChoices[j].0
    ensures FromCode(Code(s)) == Some(s)
    ensures FromCode(c) == Some(s) ==> Code(s) == c
  {
  }

  /** The value of the `status` column: `blank=True` admits the empty value
      beside the four coded states. */
  datatype StatusValue = Blank | Status(status: LoanStatus)

  /** `default='m'`: a new copy is in maintenance. */
  const DefaultStatus: StatusValue := Status(Maintenance)

  /** The stored text of a status value (`max_length=1`). */
  function StatusField(v: StatusValue): string
  {
    match v
    case Blank => ""
    case Status(s) => [Code(s)]
  }

  /** Field validation of stored text against `choices` and `blank=True`. */
  function ParseStatusField(text: string): (r: Option<StatusValue>)
    ensures r.Some? ==> |text| <= 1
    ensures text == "" ==> r == Some(Blank)
  {
    if text == "" then Some(Blank)
    else if |text| == 1 then
      match FromCode(text[0])
      case Some(s) => Some(Status(s))
      case None => None
    else None
  }

  /** Storing a status value and validating the stored text gives it back,
      and every text that validates is the stored form of its value. */
  lemma StatusFieldRoundTrip(v: StatusValue, text: string)
    ensures ParseStatusField(StatusField(v)) == Some(v)
    ensures ParseStatusField(text).Some? ==> StatusField(ParseStatusField(text).value) == text
  {
    if ParseStatusField(text).Some? && |text| == 1 {
      assert text == [text[0]];
    }
  }

  // ---------------------------------------------------------------------
  // Book copies

  /** A specific copy of a book that can be borrowed. */
  datatype BookInstance = BookInstance(
    id: Uuid,
    book: Option<nat>,
    imprint: string,
    dueBack: Option<Date>,
    borrower: Option<UserId>,
    status: StatusValue)

  /** A freshly created copy: only the declared defaults are filled in. */
  function NewBookInstance(id: Uuid, book: Option<nat>, imprint: string): (b: BookInstance)
    ensures b.status == DefaultStatus && StatusField(b.status) == "m"
    ensures b.dueBack.None? && b.borrower.None?
    ensures b.id == id && b.book == book && b.imprint == imprint
  {
    BookInstance(id, book, imprint, None, None, DefaultStatus)
  }

  /** `BookInstance.is_overdue`: a copy with a due date is overdue once today
      is strictly later than it. */
  function IsOverdue(b: BookInstance, today: Date): (r: bool)
    ensures b.dueBack.None? ==> !r
    ensures b.dueBack == Some(today) ==> !r
    ensures r <==> exists d: Date :: b.dueBack == Some(d) && d < today
  {
    b.dueBack.Some? && today > b.dueBack.value
  }

  /** Overdue is a lasting state: an overdue copy stays overdue on every
      later day, and a copy is not overdue on any day up to its due date. */
  lemma OverdueFacts(b: BookInstance, today: Date, later: Date)
    ensures IsOverdue(b, today) && today <= later ==> IsOverdue(b, later)
    ensures b.dueBack.Some? && today <= b.dueBack.value ==> !IsOverdue(b, today)
  {
  }

  // ---------------------------------------------------------------------
  // Books and their genres

  datatype Genre = Genre(name: string)

  /** A book (not a specific copy); `genres` is the many-to-many relation in
      the order the store returns it. */
  datatype Book = Book(
    title: string,
    author: Option<AuthorId>,
    summary: string,
    isbn: string,
    genres: seq<Genre>,
    language: Option<LanguageId>)

  /** `sep.join(parts)`. */
  function Join(sep: string, parts: seq<string>): (r: string)
    ensures |parts| == 0 ==> r == ""
    ensures |parts| > 0 ==> |r| == TotalLength(parts) + |sep| * (|parts| - 1)
    ensures |parts| > 0 ==> r[..|parts[0]|] == parts[0]
  {
    if |parts| == 0 then ""
    else if |parts| == 1 then parts[0]
    else parts[0] + sep + Join(sep, parts[1..])
  }

  /** The sum of the lengths of some strings. */
  function TotalLength(parts: seq<string>): nat
  {
    if |parts| == 0 then 0 else |parts[0]| + TotalLength(parts[1..])
  }

  /** The names of some genres, in order. */
  function GenreNames(gs: seq<Genre>): (names: seq<string>)
    ensures |names| == |gs|
    ensures forall i :: 0 <= i < |gs| ==> names[i] == gs[i].name
  {
    seq(|gs|, i requires 0 <= i < |gs| => gs[i].name)
  }

  /** How many genres `display_genre` shows. */
  const DisplayedGenres: nat := 3

  /** `Book.display_genre`: the names of the first three genres joined with ", ". */
  function DisplayGenre(b: Book): (r: string)
    ensures |b.genres| == 0 ==> r == ""
  {
    var shown := if |b.genres| <= DisplayedGenres then b.genres else b.genres[..DisplayedGenres];
    Join(", ", GenreNames(shown))
  }

  /** The displayed genre text, case by case: empty for no genre, the one
      name, two names, or the first three names, so a fourth and later genre
      never shows. */
  lemma DisplayGenreCases(b: Book)
    ensures |b.genres| == 0 ==> DisplayGenre(b) == ""
    ensures |b.genres| == 1 ==> DisplayGenre(b) == b.genres[0].name
    ensures |b.genres| == 2 ==> DisplayGenre(b) == b.genres[0].name + ", " + b.genres[1].name
    ensures |b.genres| >= 3 ==>
      DisplayGenre(b) == b.genres[0].name + ", " + b.genres[1].name + ", " + b.genres[2].name
  {
    var n := |b.genres|;
    if n >= 1 {
      var shown := if n <= DisplayedGenres then b.genres else b.genres[..DisplayedGenres];
      var names := GenreNames(shown);
      assert names[0] == b.genres[0].name;
      if n == 2 {
        assert names[1..] == [b.genres[1].name];
        assert Join(", ", names[1..]) == b.genres[1].name;
      } else if n >= 3 {
        assert names[1..] == [b.genres[1].name, b.genres[2].name];
        assert names[1..][1..] == [b.genres[2].name];
        assert Join(", ", names[1..][1..]) == b.genres[2].name;
        assert Join(", ", names[1..]) == b.genres[1].name + ", " + b.genres[2].name;
      }
    }
  }

  /** Genres added after the first three do not change the displayed text. */
  lemma {:induction false} DisplayGenreIgnoresLaterGenres(b: Book, more: seq<Genre>)
    requires |b.genres| >= DisplayedGenres
    ensures DisplayGenre(b.(genres := b.genres + more)) == DisplayGenre(b)
  {
    var b' := b.(genres := b.genres + more);
    assert b'.genres[..DisplayedGenres] == b.genres[..DisplayedGenres];
    DisplayGenreCases(b);
    DisplayGenreCases(b');
  }

  // ---------------------------------------------------------------------
  // People

  /** The shared "last, first" display of authors, actors and directors. */
  function DisplayName(lastName: string, firstName: string): (r: string)
    ensures |r| == |lastName| + 2 + |firstName|
    ensures r[..|lastName|] == lastName && r[|lastName|..|lastName| + 2] == ", "
    ensures r[|lastName| + 2..] == firstName
    ensures ',' !in lastName ==> SplitDisplayName(r) == Some((lastName, firstName))
  {
    DisplayNameRoundTrip(lastName, firstName);
    lastName + ", " + firstName
  }

  /** Index of the first comma in `s`, if any. */
  function FirstComma(s: string): (r: Option<nat>)
    ensures r.Some? ==> r.value < |s| && s[r.value] == ',' && ',' !in s[..r.value]
    ensures r.None? ==> ',' !in s
  {
    if |s| == 0 then None
    else if s[0] == ',' then Some(0)
    else match FirstComma(s[1..])
      case None => None
      case Some(k) => Some(k + 1)
  }

  /** Reads a displayed name back into (last name, first name), splitting at
      the first ", ". */
  function SplitDisplayName(s: string): (r: Option<(string, string)>)
    ensures r.Some? ==> r.value.0 + ", " + r.value.1 == s
  {
    match FirstComma(s)
    case None => None
    case Some(k) =>
      if k + 1 < |s| && s[k + 1] == ' ' then
        assert s == s[..k] + ", " + s[k + 2..];
        Some((s[..k], s[k + 2..]))
      else None
  }

  /** When the last name holds no comma, the displayed name determines both
      name parts. */
  lemma {:induction false} DisplayNameRoundTrip(lastName: string, firstName: string)
    ensures ',' !in lastName ==> SplitDisplayName(lastName + ", " + firstName) == Some((lastName, firstName))
  {
    if ',' !in lastName {
      FirstCommaAfterPrefix(lastName, ", " + firstName);
      assert lastName + ", " + firstName == lastName + (", " + firstName);
    }
  }

  /** A comma-free prefix moves the first comma of what follows by its length. */
  lemma {:induction false} FirstCommaAfterPrefix(prefix: string, rest: string)
    requires ',' !in prefix
    requires |rest| > 0 && rest[0] == ','
    ensures FirstComma(prefix + rest) == Some(|prefix|)
  {
    if |prefix| > 0 {
      assert (prefix + rest)[1..] == prefix[1..] + rest;
      FirstCommaAfterPrefix(prefix[1..], rest);
    } else {
      assert prefix + rest == rest;
    }
  }

  datatype Author = Author(
    firstName: string,
    lastName: string,
    dateOfBirth: Option<Date>,
    dateOfDeath: Option<Date>)

  datatype Actor = Actor(
    firstName: string,
    lastName: string,
    dateOfBirth: Option<Date>,
    dateOfDeath: Option<Date>,
    specialisation: string)

  datatype Director = Director(
    firstName: string,
    lastName: string,
    dateOfBirth: Option<Date>,
    dateOfDeath: Option<Date>,
    amountOfFilms: string)

  /** `Author.__str__`: last name, ", ", first name; with a comma-free last
      name the text is read back into both names. */
  function AuthorStr(a: Author): (r: string)
    ensures |r| == |a.lastName| + 2 + |a.firstName|
    ensures r[..|a.lastName|] == a.lastName && r[|a.lastName|..|a.lastName| + 2] == ", "
    ensures r[|a.lastName| + 2..] == a.firstName
    ensures ',' !in a.lastName ==> SplitDisplayName(r) == Some((a.lastName, a.firstName))
  {
    DisplayName(a.lastName, a.firstName)
  }

  /** `Actor.__str__`, the same format as an author's. */
  function ActorStr(a: Actor): (r: string)
    ensures |r| == |a.lastName| + 2 + |a.firstName|
    ensures r[..|a.lastName|] == a.lastName && r[|a.lastName|..|a.lastName| + 2] == ", "
    ensures r[|a.lastName| + 2..] == a.firstName
    ensures ',' !in a.lastName ==> SplitDisplayName(r) == Some((a.lastName, a.firstName))
  {
    DisplayName(a.lastName, a.firstName)
  }

  /** `Director.__str__`, the same format as an author's. */
  function DirectorStr(d: Director): (r: string)
    ensures |r| == |d.lastName| + 2 + |d.firstName|
    ensures r[..|d.lastName|] == d.lastName && r[|d.lastName|..|d.lastName| + 2] == ", "
    ensures r[|d.lastName| + 2..] == d.firstName
    ensures ',' !in d.lastName ==> SplitDisplayName(r) == Some((d.lastName, d.firstName))
  {
    DisplayName(d.lastName, d.firstName)
  }
}
