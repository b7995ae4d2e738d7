/**
 The two list comprehensions of the batch step, for any element test and
 any partial conversion: keeping the elements that pass a test, and keeping
 the successful conversions, both in their original order.
 */
module Collect {
  import opened Options

  /** `[x for x in s if p(x)]` */
  function Filter<T>(p: T -> bool, s: seq<T>): (r: seq<T>)
    ensures forall i :: 0 <= i < |r| ==> p(r[i])
    ensures forall i :: 0 <= i < |s| && p(s[i]) ==> s[i] in r
    ensures forall x :: x in r ==> x in s
    ensures r == [] <==> forall i :: 0 <= i < |s| ==> !p(s[i])
  {
    if |s| == 0 then []
    else
      var rest := Filter(p, s[1..]);
      assert forall i :: 1 <= i < |s| ==> s[i] == s[1..][i - 1];
      (if p(s[0]) then [s[0]] else []) + rest
  }

  /** `[y for y in map(f, s) if y is not None]` */
  function FilterMap<T, U>(f: T -> Option<U>, s: seq<T>): (r: seq<U>)
    ensures r == [] <==> forall i :: 0 <= i < |s| ==> f(s[i]).None?
    ensures |r| <= |s|
  {
    if |s| == 0 then []
    else
      var rest := FilterMap(f, s[1..]);
      assert forall i :: 1 <= i < |s| ==> s[i] == s[1..][i - 1];
      match f(s[0])
      case None => rest
      case Some(y) => [y] + rest
  }

  lemma {:induction false} FilterAppend<T>(p: T -> bool, a: seq<T>, b: seq<T>)
    ensures Filter(p, a + b) == Filter(p, a) + Filter(p, b)
  {
    if |a| > 0 {
      assert (a + b)[1..] == a[1..] + b;
      FilterAppend(p, a[1..], b);
    } else {
      assert a + b == b;
    }
  }

  /** Converting a concatenation converts each part. */
  lemma {:induction false} FilterMapAppend<T, U>(f: T -> Option<U>, a: seq<T>, b: seq<T>)
    ensures FilterMap(f, a + b) == FilterMap(f, a) + FilterMap(f, b)
  {
    if |a| > 0 {
      assert (a + b)[0] == a[0];
      assert (a + b)[1..] == a[1..] + b;
      FilterMapAppend(f, a[1..], b);
    } else {
      assert a + b == b;
    }
  }

  /** A passing element stays in its own place, once, between the survivors of its two sides. */
  lemma FilterKeeps<T>(p: T -> bool, a: seq<T>, x: T, b: seq<T>)
    requires p(x)
    ensures Filter(p, a + [x] + b) == Filter(p, a) + [x] + Filter(p, b)
  {
    assert Filter(p, [x]) == [x] by {
      assert [x][1..] == [];
    }
    calc {
      Filter(p, a + [x] + b);
      { FilterAppend(p, a + [x], b); }
      Filter(p, a + [x]) + Filter(p, b);
      { FilterAppend(p, a, [x]); }
      Filter(p, a) + Filter(p, [x]) + Filter(p, b);
    }
  }

  /** A failing element drops out and changes nothing else. */
  lemma FilterSkips<T>(p: T -> bool, a: seq<T>, x: T, b: seq<T>)
    requires !p(x)
    ensures Filter(p, a + [x] + b) == Filter(p, a + b)
  {
    assert Filter(p, [x]) == [] by {
      assert [x][1..] == [];
    }
    calc {
      Filter(p, a + [x] + b);
      { FilterAppend(p, a + [x], b); }
      Filter(p, a + [x]) + Filter(p, b);
      { FilterAppend(p, a, [x]); }
      Filter(p, a) + Filter(p, [x]) + Filter(p, b);
      Filter(p, a) + Filter(p, b);
      { FilterAppend(p, a, b); }
      Filter(p, a + b);
    }
  }

  /** A failed conversion drops out and changes nothing else. */
  lemma FilterMapSkipsFailure<T, U>(f: T -> Option<U>, a: seq<T>, x: T, b: seq<T>)
    requires f(x).None?
    ensures FilterMap(f, a + [x] + b) == FilterMap(f, a + b)
  {
    FilterMapAppend(f, a + [x], b);
    FilterMapAppend(f, a, [x]);
    FilterMapAppend(f, a, b);
    assert [x][1..] == [];
  }

  /** A successful conversion contributes its result at its own place. */
  lemma FilterMapKeepsSuccess<T, U>(f: T -> Option<U>, a: seq<T>, x: T, b: seq<T>)
    requires f(x).Some?
    ensures FilterMap(f, a + [x] + b) == FilterMap(f, a) + [f(x).value] + FilterMap(f, b)
  {
    FilterMapAppend(f, a + [x], b);
    FilterMapAppend(f, a, [x]);
    assert [x][1..] == [];
    assert FilterMap(f, [x]) == [f(x).value] + FilterMap(f, []);
  }

  /** Converting the elements that pass a test yields nothing exactly when every passing element fails to convert. */
  lemma {:induction false} FilterMapOfFilterEmpty<T, U>(f: T -> Option<U>, p: T -> bool, s: seq<T>)
    ensures FilterMap(f, Filter(p, s)) == [] <==> forall i :: 0 <= i < |s| && p(s[i]) ==> f(s[i]).None?
  {
    if |s| > 0 {
      FilterMapOfFilterEmpty(f, p, s[1..]);
      var head := if p(s[0]) then [s[0]] else [];
      FilterMapAppend(f, head, Filter(p, s[1..]));
      assert forall i :: 1 <= i < |s| ==> s[i] == s[1..][i - 1];
    }
  }

  lemma FilterPair<T>(p: T -> bool, x: T, y: T)
    requires p(x) && p(y)
    ensures Filter(p, [x, y]) == [x, y]
  {
  }

  lemma FilterMapPair<T, U>(f: T -> Option<U>, x: T, y: T)
    requires f(x).Some? && f(y).Some?
    ensures FilterMap(f, [x, y]) == [f(x).value, f(y).value]
  {
  }
}
