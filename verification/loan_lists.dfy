/** Query building blocks for the "on loan" lists: filtering the stored copies
    and ordering them by due date (`order_by('due_back')`).

    Where a database puts copies without a due date in an ascending order is
    backend-specific, so the ordering takes `nullsFirst` as a parameter and
    the promised order is stated for copies that have a due date. */
module LoanLists {
  import opened Results
  import opened Calendar
  import opened Catalogue

  /** `filter(...)`: the copies that satisfy `keep`, in store order. Each copy
      appears as often as in the store if it is kept, and not at all otherwise. */
  function Filter(s: seq<BookInstance>, keep: BookInstance -> bool): (r: seq<BookInstance>)
    ensures |r| <= |s|
    ensures forall b :: multiset(r)[b] == if keep(b) then multiset(s)[b] else 0
    ensures forall b :: b in r <==> b in s && keep(b)
  {
    if |s| == 0 then []
    else
      assert s == [s[0]] + s[1..];
      if keep(s[0]) then [s[0]] + Filter(s[1..], keep) else Filter(s[1..], keep)
  }

  /** Ascending due-date order with absent dates placed before or after every
      present one. */
  predicate DueLe(a: Option<Date>, b: Option<Date>, nullsFirst: bool)
  {
    match (a, b)
    case (Some(x), Some(y)) => x <= y
    case (None, None) => true
    case (None, Some(_)) => nullsFirst
    case (Some(_), None) => !nullsFirst
  }

  /** Every earlier copy is due no later than every later one. */
  predicate SortedByDue(s: seq<BookInstance>, nullsFirst: bool)
  {
    forall i, j :: 0 <= i < j < |s| ==> DueLe(s[i].dueBack, s[j].dueBack, nullsFirst)
  }

  /** Among copies that have a due date, earlier positions are due no later;
      this holds whatever the backend does with absent dates. */
  predicate PresentDatesAscending(s: seq<BookInstance>)
  {
    forall i, j :: 0 <= i < j < |s| && s[i].dueBack.Some? && s[j].dueBack.Some? ==>
      s[i].dueBack.value <= s[j].dueBack.value
  }

  /** `y` is due no later than every copy of `s`. */
  predicate LowerBound(y: Option<Date>, s: seq<BookInstance>, nullsFirst: bool)
  {
    forall k :: 0 <= k < |s| ==> DueLe(y, s[k].dueBack, nullsFirst)
  }

  /** Prepending a lower bound to an ordered list keeps it ordered. */
  lemma ConsSorted(x: BookInstance, s: seq<BookInstance>, nullsFirst: bool)
    requires SortedByDue(s, nullsFirst) && LowerBound(x.dueBack, s, nullsFirst)
    ensures SortedByDue([x] + s, nullsFirst)
  {
    var r := [x] + s;
    forall i, j | 0 <= i < j < |r| ensures DueLe(r[i].dueBack, r[j].dueBack, nullsFirst)
    {
      if i > 0 {
        assert r[i] == s[i - 1] && r[j] == s[j - 1];
      } else {
        assert r[j] == s[j - 1];
      }
    }
  }

  /** `DueLe` is transitive and total, so it orders copies. */
  lemma DueLeOrders(a: Option<Date>, b: Option<Date>, c: Option<Date>, nullsFirst: bool)
    ensures DueLe(a, b, nullsFirst) && DueLe(b, c, nullsFirst) ==> DueLe(a, c, nullsFirst)
    ensures DueLe(a, b, nullsFirst) || DueLe(b, a, nullsFirst)
  {
  }

  /** Places one copy into a due-date-ordered list, before the first copy it
      is due no later than. */
  function Insert(x: BookInstance, s: seq<BookInstance>, nullsFirst: bool): (r: seq<BookInstance>)
    ensures multiset(r) == multiset(s) + multiset{x}
    ensures |r| == |s| + 1
  {
    if |s| == 0 then [x]
    else if DueLe(x.dueBack, s[0].dueBack, nullsFirst) then [x] + s
    else
      assert s == [s[0]] + s[1..];
      [s[0]] + Insert(x, s[1..], nullsFirst)
  }

  /** Inserting into an ordered list keeps it ordered, and a common lower
      bound of the list and the new copy bounds the result. */
  lemma {:induction false} InsertSorted(x: BookInstance, s: seq<BookInstance>, nullsFirst: bool)
    requires SortedByDue(s, nullsFirst)
    ensures SortedByDue(Insert(x, s, nullsFirst), nullsFirst)
    ensures forall y :: LowerBound(y, s, nullsFirst) && DueLe(y, x.dueBack, nullsFirst) ==>
      LowerBound(y, Insert(x, s, nullsFirst), nullsFirst)
  {
    var r := Insert(x, s, nullsFirst);
    if |s| == 0 {
    } else if DueLe(x.dueBack, s[0].dueBack, nullsFirst) {
      assert LowerBound(x.dueBack, s, nullsFirst) by {
        forall k | 0 <= k < |s| ensures DueLe(x.dueBack, s[k].dueBack, nullsFirst) {
          if k > 0 {
            assert DueLe(s[0].dueBack, s[k].dueBack, nullsFirst);
            DueLeOrders(x.dueBack, s[0].dueBack, s[k].dueBack, nullsFirst);
          }
        }
      }
      ConsSorted(x, s, nullsFirst);
      assert r == [x] + s;
    } else {
      var rest := s[1..];
      assert SortedByDue(rest, nullsFirst) by {
        forall i, j | 0 <= i < j < |rest| ensures DueLe(rest[i].dueBack, rest[j].dueBack, nullsFirst) {
          assert rest[i] == s[i + 1] && rest[j] == s[j + 1];
        }
      }
      InsertSorted(x, rest, nullsFirst);
      var tail := Insert(x, rest, nullsFirst);
      assert r == [s[0]] + tail;
      DueLeOrders(x.dueBack, s[0].dueBack, x.dueBack, nullsFirst);
      assert LowerBound(s[0].dueBack, rest, nullsFirst) by {
        forall k | 0 <= k < |rest| ensures DueLe(s[0].dueBack, rest[k].dueBack, nullsFirst) {
          assert rest[k] == s[k + 1];
        }
      }
      ConsSorted(s[0], tail, nullsFirst);
      forall y | LowerBound(y, s, nullsFirst) && DueLe(y, x.dueBack, nullsFirst)
        ensures LowerBound(y, r, nullsFirst)
      {
        assert LowerBound(y, rest, nullsFirst) by {
          forall k | 0 <= k < |rest| ensures DueLe(y, rest[k].dueBack, nullsFirst) {
            assert rest[k] == s[k + 1];
          }
        }
        assert DueLe(y, s[0].dueBack, nullsFirst);
        forall k | 0 <= k < |r| ensures DueLe(y, r[k].dueBack, nullsFirst) {
          if k > 0 { assert r[k] == tail[k - 1]; }
        }
      }
    }
  }

  /** `order_by('due_back')`: the same copies, ordered by due date. */
  function OrderByDue(s: seq<BookInstance>, nullsFirst: bool): (r: seq<BookInstance>)
    ensures SortedByDue(r, nullsFirst)
    ensures multiset(r) == multiset(s)
  {
    if |s| == 0 then []
    else
      assert s == [s[0]] + s[1..];
      InsertSorted(s[0], OrderByDue(s[1..], nullsFirst), nullsFirst);
      Insert(s[0], OrderByDue(s[1..], nullsFirst), nullsFirst)
  }

  /** Whichever place the backend gives absent dates, a due-date-ordered list
      is ascending on its present dates. */
  lemma {:induction false} SortedHasPresentDatesAscending(s: seq<BookInstance>, nullsFirst: bool)
    requires SortedByDue(s, nullsFirst)
    ensures PresentDatesAscending(s)
    ensures !nullsFirst ==> forall i, j :: 0 <= i < j < |s| && s[i].dueBack.None? ==> s[j].dueBack.None?
    ensures nullsFirst ==> forall i, j :: 0 <= i < j < |s| && s[j].dueBack.None? ==> s[i].dueBack.None?
  {
    forall i, j | 0 <= i < j < |s| && s[i].dueBack.Some? && s[j].dueBack.Some?
      ensures s[i].dueBack.value <= s[j].dueBack.value
    {
      assert DueLe(s[i].dueBack, s[j].dueBack, nullsFirst);
    }
  }
}
