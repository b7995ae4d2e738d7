/**
 `sorted(records, key=lambda x: x['_SortDate'])`: a stable ascending sort of
 parsed invoices by their date. It is written as an insertion sort that
 places each record before every later record whose date is not earlier,
 and characterised independently: the output is in date order and, for
 every date, lists the records of that date in input order.
 */
module Sorting {
  import opened Dates
  import opened Filename

  predicate Sorted(s: seq<Invoice>) {
    forall i, j :: 0 <= i < j < |s| ==> Le(s[i].date, s[j].date)
  }

  /** The records of `s` dated `d`, in their order in `s`. */
  function OnDate(s: seq<Invoice>, d: Date): seq<Invoice>
  {
    if |s| == 0 then []
    else (if s[0].date == d then [s[0]] else []) + OnDate(s[1..], d)
  }

  /** `x` placed in `t` after the records dated strictly earlier than it. */
  function Insert(x: Invoice, t: seq<Invoice>): (r: seq<Invoice>)
    ensures multiset(r) == multiset(t) + multiset{x}
  {
    if |t| == 0 then [x]
    else if Le(x.date, t[0].date) then [x] + t
    else
      assert t == [t[0]] + t[1..];
      [t[0]] + Insert(x, t[1..])
  }

  /** The stable sort of `s` by date. */
  function SortByDate(s: seq<Invoice>): (r: seq<Invoice>)
    ensures multiset(r) == multiset(s)
    ensures Sorted(r)
  {
    if |s| == 0 then []
    else
      assert s == [s[0]] + s[1..];
      var rest := SortByDate(s[1..]);
      InsertSorted(s[0], rest);
      Insert(s[0], rest)
  }

  lemma {:induction false} InsertSorted(x: Invoice, t: seq<Invoice>)
    requires Sorted(t)
    ensures Sorted(Insert(x, t))
  {
    if |t| > 0 && !Le(x.date, t[0].date) {
      assert Sorted(t[1..]) by {
        forall i, j | 0 <= i < j < |t| - 1
          ensures Le(t[1..][i].date, t[1..][j].date)
        {
          assert t[1..][i] == t[i + 1] && t[1..][j] == t[j + 1];
        }
      }
      InsertSorted(x, t[1..]);
      TailAfterHead(x, t);
      ConsSorted(t[0], Insert(x, t[1..]));
    } else if |t| > 0 {
      forall i | 0 <= i < |t|
        ensures Le(x.date, t[i].date)
      {
        LeTransitive(x.date, t[0].date, t[i].date);
      }
      ConsSorted(x, t);
    }
  }

  /** A sorted sequence stays sorted behind a record no later than any of it. */
  lemma ConsSorted(h: Invoice, s: seq<Invoice>)
    requires Sorted(s)
    requires forall i :: 0 <= i < |s| ==> Le(h.date, s[i].date)
    ensures Sorted([h] + s)
  {
  }

  /** When `x` goes past the head of `t`, everything placed after the head is no earlier than it. */
  lemma TailAfterHead(x: Invoice, t: seq<Invoice>)
    requires Sorted(t) && |t| > 0 && !Le(x.date, t[0].date)
    ensures forall i :: 0 <= i < |Insert(x, t[1..])| ==> Le(t[0].date, Insert(x, t[1..])[i].date)
  {
    var tail := Insert(x, t[1..]);
    forall i | 0 <= i < |tail|
      ensures Le(t[0].date, tail[i].date)
    {
      var y := tail[i];
      assert y in multiset(tail);
      if y == x {
        LeTotal(x.date, t[0].date);
      } else {
        assert y in t[1..];
      }
    }
  }

  lemma {:induction false} OnDateAppend(a: seq<Invoice>, b: seq<Invoice>, d: Date)
    ensures OnDate(a + b, d) == OnDate(a, d) + OnDate(b, d)
  {
    if |a| > 0 {
      assert (a + b)[1..] == a[1..] + b;
      OnDateAppend(a[1..], b, d);
    } else {
      assert a + b == b;
    }
  }

  /** A record of date `d` sits in the run of date `d` between the runs of what precedes and follows it. */
  lemma OnDateKeeps(a: seq<Invoice>, x: Invoice, b: seq<Invoice>, d: Date)
    requires x.date == d
    ensures OnDate(a + [x] + b, d) == OnDate(a, d) + [x] + OnDate(b, d)
  {
    OnDateAppend(a + [x], b, d);
    OnDateAppend(a, [x], d);
    OnDateCons(x, [], d);
    assert [x] + [] == [x];
  }

  lemma {:induction false} OnDateMember(s: seq<Invoice>, d: Date, x: Invoice)
    requires x in OnDate(s, d)
    ensures x in s && x.date == d
  {
    if |s| > 0 && !(s[0].date == d && x == s[0]) {
      assert x in OnDate(s[1..], d);
      OnDateMember(s[1..], d, x);
    }
  }

  lemma OnDateCons(x: Invoice, s: seq<Invoice>, d: Date)
    ensures OnDate([x] + s, d) == (if x.date == d then [x] else []) + OnDate(s, d)
  {
  }

  /** Inserting only moves `x` past records of other dates. */
  lemma {:induction false} InsertOnDate(x: Invoice, t: seq<Invoice>, d: Date)
    ensures OnDate(Insert(x, t), d) == OnDate([x] + t, d)
  {
    if |t| > 0 && !Le(x.date, t[0].date) {
      var t0, rest := t[0], t[1..];
      var p0 := if t0.date == d then [t0] else [];
      var px := if x.date == d then [x] else [];
      var tail := OnDate(rest, d);
      assert p0 + px == px + p0 by {
        assert t0.date != x.date;
      }
      assert OnDate(Insert(x, t), d) == p0 + (px + tail) by {
        assert Insert(x, t) == [t0] + Insert(x, rest);
        OnDateCons(t0, Insert(x, rest), d);
        InsertOnDate(x, rest, d);
        OnDateCons(x, rest, d);
      }
      assert OnDate([x] + t, d) == px + (p0 + tail) by {
        OnDateCons(x, t, d);
        assert t == [t0] + rest;
        OnDateCons(t0, rest, d);
      }
    } else {
      assert Insert(x, t) == [x] + t;
    }
  }

  /** Stability: for every date, the sort keeps that date's records in input order. */
  lemma {:induction false} SortStable(s: seq<Invoice>, d: Date)
    ensures OnDate(SortByDate(s), d) == OnDate(s, d)
  {
    if |s| > 0 {
      var rest := SortByDate(s[1..]);
      SortStable(s[1..], d);
      InsertOnDate(s[0], rest, d);
      OnDateAppend([s[0]], rest, d);
      OnDateAppend([s[0]], s[1..], d);
      assert s == [s[0]] + s[1..];
    }
  }

  /** The first record of a sorted sequence is not later than any of its records. */
  lemma FirstIsEarliest(u: seq<Invoice>, x: Invoice)
    requires Sorted(u) && x in u
    ensures Le(u[0].date, x.date)
  {
  }

  /** Two date-sorted sequences that agree on every date's records are the same. */
  lemma {:induction false} SortedAgreeing(t: seq<Invoice>, u: seq<Invoice>)
    requires Sorted(t) && Sorted(u)
    requires forall d :: OnDate(t, d) == OnDate(u, d)
    ensures t == u
    decreases |t| + |u|
  {
    assert |t| > 0 <==> |u| > 0 by {
      if |t| > 0 {
        assert t[0] in OnDate(t, t[0].date);
      }
      if |u| > 0 {
        assert u[0] in OnDate(u, u[0].date);
      }
    }
    if |t| > 0 {
      var a, b := t[0], u[0];
      assert a in OnDate(u, a.date);
      OnDateMember(u, a.date, a);
      FirstIsEarliest(u, a);
      assert b in OnDate(t, b.date);
      OnDateMember(t, b.date, b);
      FirstIsEarliest(t, b);
      LeAntisymmetric(a.date, b.date);
      var m := a.date;
      assert OnDate(t, m) == [a] + OnDate(t[1..], m);
      assert OnDate(u, m) == [b] + OnDate(u[1..], m);
      assert a == OnDate(t, m)[0] == OnDate(u, m)[0] == b;
      forall d
        ensures OnDate(t[1..], d) == OnDate(u[1..], d)
      {
        var p := if d == m then [a] else [];
        assert OnDate(t, d) == p + OnDate(t[1..], d);
        assert OnDate(u, d) == p + OnDate(u[1..], d);
        assert OnDate(t[1..], d) == OnDate(t, d)[|p|..];
        assert OnDate(u[1..], d) == OnDate(u, d)[|p|..];
      }
      SortedAgreeing(t[1..], u[1..]);
      assert t == [a] + t[1..] && u == [b] + u[1..];
    }
  }

  /**
   The sort is the only date-sorted arrangement that keeps each date's
   records in input order.
   */
  lemma SortUnique(s: seq<Invoice>, t: seq<Invoice>)
    requires Sorted(t)
    requires forall d :: OnDate(t, d) == OnDate(s, d)
    ensures t == SortByDate(s)
  {
    forall d
      ensures OnDate(t, d) == OnDate(SortByDate(s), d)
    {
      SortStable(s, d);
    }
    SortedAgreeing(t, SortByDate(s));
  }

  /** Two records of different dates sort earlier date first, in either input order. */
  lemma SortPair(a: Invoice, b: Invoice)
    requires Le(a.date, b.date) && a.date != b.date
    ensures SortByDate([a, b]) == [a, b] && SortByDate([b, a]) == [a, b]
  {
  }
}
