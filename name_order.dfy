/**
 * Python's ordering of strings (code point by code point, a proper prefix
 * first) and `sorted` on a list of file names.
 */
module NameOrder {

  /** Python `a < b` on `str`. */
  predicate Below(a: string, b: string)
  {
    if a == [] then b != []
    else b != [] && (a[0] < b[0] || (a[0] == b[0] && Below(a[1..], b[1..])))
  }

  /** Python `a <= b` on `str`. */
  predicate AtMost(a: string, b: string)
  {
    !Below(b, a)
  }

  lemma {:induction false} BelowIrreflexive(a: string)
    ensures !Below(a, a)
  {
    if a != [] {
      BelowIrreflexive(a[1..]);
    }
  }

  lemma {:induction false} BelowTotal(a: string, b: string)
    ensures a == b || Below(a, b) || Below(b, a)
  {
    if a != [] && b != [] && a[0] == b[0] {
      BelowTotal(a[1..], b[1..]);
      if a[1..] == b[1..] {
        assert a == [a[0]] + a[1..] && b == [b[0]] + b[1..];
      }
    }
  }

  lemma {:induction false} BelowTransitive(a: string, b: string, c: string)
    requires Below(a, b) && Below(b, c)
    ensures Below(a, c)
  {
    if a != [] && a[0] == b[0] && b[0] == c[0] {
      BelowTransitive(a[1..], b[1..], c[1..]);
    }
  }

  lemma BelowAsymmetric(a: string, b: string)
    requires Below(a, b)
    ensures !Below(b, a)
  {
    if Below(b, a) {
      BelowTransitive(a, b, a);
      BelowIrreflexive(a);
    }
  }

  lemma AtMostTransitive(a: string, b: string, c: string)
    requires AtMost(a, b) && AtMost(b, c)
    ensures AtMost(a, c)
  {
    if Below(c, a) {
      BelowTotal(a, b);
      if a != b {
        BelowTransitive(c, a, b);
      }
    }
  }

  lemma AtMostAntisymmetric(a: string, b: string)
    requires AtMost(a, b) && AtMost(b, a)
    ensures a == b
  {
    BelowTotal(a, b);
  }

  /** Each name is at most every later one. */
  predicate Ascending(xs: seq<string>)
  {
    forall i, j | 0 <= i < j < |xs| :: AtMost(xs[i], xs[j])
  }

  /** `x` placed before the first name that is not below it. */
  function Insert(x: string, xs: seq<string>): (r: seq<string>)
    ensures multiset(r) == multiset(xs) + multiset{x}
  {
    if xs == [] then [x]
    else if !Below(xs[0], x) then [x] + xs
    else
      assert xs == [xs[0]] + xs[1..];
      [xs[0]] + Insert(x, xs[1..])
  }

  /** Python `sorted(xs)` on names. */
  function Sorted(xs: seq<string>): (r: seq<string>)
    ensures multiset(r) == multiset(xs)
  {
    if xs == [] then []
    else
      assert xs == [xs[0]] + xs[1..];
      Insert(xs[0], Sorted(xs[1..]))
  }

  /** Inserting into an ascending list keeps it ascending, and the new first name is the smaller one. */
  lemma {:induction false} InsertAscending(x: string, xs: seq<string>)
    requires Ascending(xs)
    ensures Ascending(Insert(x, xs))
    ensures xs != [] ==> Insert(x, xs)[0] == x || Insert(x, xs)[0] == xs[0]
  {
    var r := Insert(x, xs);
    if xs == [] {
    } else if !Below(xs[0], x) {
      assert r == [x] + xs;
      forall i, j | 0 <= i < j < |r| ensures AtMost(r[i], r[j]) {
        if i == 0 && j > 1 {
          AtMostTransitive(x, xs[0], xs[j - 1]);
        }
      }
    } else {
      var rest := Insert(x, xs[1..]);
      InsertAscending(x, xs[1..]);
      BelowAsymmetric(xs[0], x);
      assert r == [xs[0]] + rest;
      forall i, j | 0 <= i < j < |r| ensures AtMost(r[i], r[j]) {
        if i == 0 && rest[j - 1] != x {
          assert rest[j - 1] in multiset(rest);
          assert rest[j - 1] in multiset(xs[1..]);
          var k :| 0 <= k < |xs[1..]| && xs[1..][k] == rest[j - 1];
          assert xs[k + 1] == rest[j - 1];
        }
      }
    }
  }

  /** `Sorted` orders the names and keeps each of them. */
  lemma {:induction false} SortedAscending(xs: seq<string>)
    ensures Ascending(Sorted(xs)) && multiset(Sorted(xs)) == multiset(xs)
  {
    if xs != [] {
      SortedAscending(xs[1..]);
      InsertAscending(xs[0], Sorted(xs[1..]));
    }
  }

  /** There is one ascending arrangement of a collection of names, so `Sorted` is it. */
  lemma {:induction false} AscendingUnique(a: seq<string>, b: seq<string>)
    requires Ascending(a) && Ascending(b) && multiset(a) == multiset(b)
    ensures a == b
  {
    if a != [] {
      assert a[0] in multiset(b);
      assert b != [] && b[0] in multiset(a);
      var k :| 0 <= k < |b| && b[k] == a[0];
      var m :| 0 <= m < |a| && a[m] == b[0];
      BelowIrreflexive(a[0]);
      assert AtMost(a[0], b[0]) by {
        if m > 0 {
          assert AtMost(a[0], a[m]);
        }
      }
      assert AtMost(b[0], a[0]) by {
        if k > 0 {
          assert AtMost(b[0], b[k]);
        }
      }
      AtMostAntisymmetric(a[0], b[0]);
      assert a == [a[0]] + a[1..] && b == [b[0]] + b[1..];
      assert multiset(a[1..]) == multiset(a) - multiset{a[0]};
      assert multiset(b[1..]) == multiset(b) - multiset{b[0]};
      AscendingTail(a);
      AscendingTail(b);
      AscendingUnique(a[1..], b[1..]);
    }
  }

  lemma AscendingTail(a: seq<string>)
    requires Ascending(a) && a != []
    ensures Ascending(a[1..])
  {
    forall i, j | 0 <= i < j < |a| - 1 ensures AtMost(a[1..][i], a[1..][j]) {
      assert a[1..][i] == a[i + 1] && a[1..][j] == a[j + 1];
    }
  }
}
