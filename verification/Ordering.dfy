/**
  The iteration order of the ordered maps (`std::map`) that the agent keeps its state in.
  A map is modelled by a Dafny `map`; walking it visits `InOrder(m.Keys, less)`.
 */
module Ordering {

  /** `less` is a strict total order. */
  ghost predicate StrictTotal<T(!new)>(less: (T, T) -> bool) {
    && (forall a :: !less(a, a))
    && (forall a, b :: less(a, b) || a == b || less(b, a))
    && (forall a, b, c :: less(a, b) && less(b, c) ==> less(a, c))
  }

  /** Elements come in strictly increasing order, hence without repetition. */
  ghost predicate Increasing<T>(s: seq<T>, less: (T, T) -> bool) {
    forall i, j :: 0 <= i < j < |s| ==> less(s[i], s[j])
  }

  ghost predicate IsLeast<T>(x: T, s: set<T>, less: (T, T) -> bool) {
    x in s && forall y :: y in s && y != x ==> less(x, y)
  }

  lemma LeastExists<T(!new)>(s: set<T>, less: (T, T) -> bool)
    requires s != {}
    requires StrictTotal(less)
    ensures exists x :: IsLeast(x, s, less)
  {
    var a :| a in s;
    if s == {a} {
      assert IsLeast(a, s, less);
    } else {
      assert s - {a} != {};
      LeastExists(s - {a}, less);
      var x :| IsLeast(x, s - {a}, less);
      if less(a, x) {
        forall y | y in s && y != a ensures less(a, y) {
          assert y in s - {a};
        }
        assert IsLeast(a, s, less);
      } else {
        assert IsLeast(x, s, less);
      }
    }
  }

  /** The elements of `s` in the order a `std::map` keyed by them is walked. */
  function InOrder<T(!new)>(s: set<T>, less: (T, T) -> bool): (r: seq<T>)
    requires StrictTotal(less)
    ensures forall x :: x in r <==> x in s
    ensures |r| == |s|
  {
    if s == {} then
      []
    else
      LeastExists(s, less);
      var x :| x in s && forall y :: y in s && y != x ==> less(x, y);
      [x] + InOrder(s - {x}, less)
  }

  lemma {:induction false} InOrderIncreasing<T(!new)>(s: set<T>, less: (T, T) -> bool)
    requires StrictTotal(less)
    ensures Increasing(InOrder(s, less), less)
  {
    if s != {} {
      LeastExists(s, less);
      var x :| x in s && forall y :: y in s && y != x ==> less(x, y);
      var rest := InOrder(s - {x}, less);
      InOrderIncreasing(s - {x}, less);
      assert InOrder(s, less) == [x] + rest;
      forall i | 0 <= i < |rest| ensures less(x, rest[i]) {
        assert rest[i] in rest;
        assert rest[i] in s - {x};
      }
      PrependLeast(x, rest, less);
    }
  }

  lemma PrependLeast<T(!new)>(x: T, rest: seq<T>, less: (T, T) -> bool)
    requires Increasing(rest, less) && forall i :: 0 <= i < |rest| ==> less(x, rest[i])
    ensures Increasing([x] + rest, less)
  {
  }

  /** A strictly increasing enumeration of a set is unique. */
  lemma {:induction false} IncreasingUnique<T(!new)>(a: seq<T>, b: seq<T>, less: (T, T) -> bool)
    requires StrictTotal(less)
    requires Increasing(a, less) && Increasing(b, less)
    requires forall x :: x in a <==> x in b
    ensures a == b
  {
    if b != [] { assert b[0] in b; }
    if a != [] {
      assert a[0] in b;
      assert b[0] in a;
      assert a[0] == b[0];
      forall x ensures x in a[1..] <==> x in b[1..] {
        if x in a[1..] {
          var i :| 0 < i < |a| && a[i] == x;
          assert less(a[0], x);
          assert x in b;
        }
        if x in b[1..] {
          var i :| 0 < i < |b| && b[i] == x;
          assert less(b[0], x);
          assert x in a;
        }
      }
      IncreasingUnique(a[1..], b[1..], less);
    }
  }

  /** Lexicographic order on sequences, as `std::string` and `std::map` compare. */
  predicate LexLess<T(==)>(a: seq<T>, b: seq<T>, less: (T, T) -> bool) {
    b != [] &&
    (a == [] || less(a[0], b[0]) || (a[0] == b[0] && LexLess(a[1..], b[1..], less)))
  }

  lemma {:induction false} LexIrreflexive<T(!new)>(a: seq<T>, less: (T, T) -> bool)
    requires StrictTotal(less)
    ensures !LexLess(a, a, less)
  {
    if a != [] { LexIrreflexive(a[1..], less); }
  }

  lemma {:induction false} LexTotal<T(!new)>(a: seq<T>, b: seq<T>, less: (T, T) -> bool)
    requires StrictTotal(less)
    ensures LexLess(a, b, less) || a == b || LexLess(b, a, less)
  {
    if a != [] && b != [] && a[0] == b[0] {
      LexTotal(a[1..], b[1..], less);
      assert a == [a[0]] + a[1..] && b == [b[0]] + b[1..];
    }
  }

  lemma {:induction false} LexTransitive<T(!new)>(a: seq<T>, b: seq<T>, c: seq<T>, less: (T, T) -> bool)
    requires StrictTotal(less)
    requires LexLess(a, b, less) && LexLess(b, c, less)
    ensures LexLess(a, c, less)
  {
    if a != [] && a[0] == b[0] == c[0] {
      LexTransitive(a[1..], b[1..], c[1..], less);
    }
  }

  /** The first place where the two differ decides, or the shorter one if there is none. */
  lemma {:induction false} LexLessIff<T(!new)>(a: seq<T>, b: seq<T>, less: (T, T) -> bool)
    requires StrictTotal(less)
    ensures LexLess(a, b, less) <==> exists n :: DecidedAt(a, b, n, less)
    decreases |a|
  {
    if a != [] && b != [] && a[0] == b[0] {
      LexLessIff(a[1..], b[1..], less);
      if n :| DecidedAt(a[1..], b[1..], n, less) {
        assert a[..n + 1] == [a[0]] + a[1..][..n] && b[..n + 1] == [b[0]] + b[1..][..n];
        assert DecidedAt(a, b, n + 1, less);
      }
      if n :| DecidedAt(a, b, n, less) {
        assert n > 0 ==> a[1..][..n - 1] == a[..n][1..] && b[1..][..n - 1] == b[..n][1..];
        if n > 0 { assert DecidedAt(a[1..], b[1..], n - 1, less); }
      }
    } else {
      assert LexLess(a, b, less) ==> DecidedAt(a, b, 0, less);
      if n :| DecidedAt(a, b, n, less) {
        HeadsAgree(a, b, n, less);
      }
    }
  }

  lemma HeadsAgree<T(!new)>(a: seq<T>, b: seq<T>, n: int, less: (T, T) -> bool)
    requires DecidedAt(a, b, n, less)
    ensures n == 0 || (a != [] && b != [] && a[0] == b[0])
  {
    if n > 0 { assert a[0] == a[..n][0] && b[0] == b[..n][0]; }
  }

  /** Equal up to `n`, where the first ends or has the lesser element. */
  ghost predicate DecidedAt<T(!new)>(a: seq<T>, b: seq<T>, n: int, less: (T, T) -> bool) {
    0 <= n <= |a| && n < |b| && a[..n] == b[..n] && (n == |a| || less(a[n], b[n]))
  }

  predicate CharLess(a: char, b: char) { a < b }

  /** `std::string` comparison. */
  predicate StringLess(a: string, b: string) { LexLess(a, b, CharLess) }

  lemma StringLessStrictTotal()
    ensures StrictTotal(StringLess)
  {
    assert StrictTotal(CharLess);
    forall a: string ensures !StringLess(a, a) { LexIrreflexive(a, CharLess); }
    forall a: string, b: string ensures StringLess(a, b) || a == b || StringLess(b, a) {
      LexTotal(a, b, CharLess);
    }
    forall a: string, b: string, c: string | StringLess(a, b) && StringLess(b, c) ensures StringLess(a, c) {
      LexTransitive(a, b, c, CharLess);
    }
  }

  /** `std::pair` comparison of two strings. */
  predicate PairLess(a: (string, string), b: (string, string)) {
    StringLess(a.0, b.0) || (a.0 == b.0 && StringLess(a.1, b.1))
  }

  /** The first difference in the first strings decides, and for equal first strings that in the second. */
  lemma PairLessIff(a: (string, string), b: (string, string))
    ensures PairLess(a, b) <==>
      || (exists n :: DecidedAt(a.0, b.0, n, CharLess))
      || (a.0 == b.0 && exists n :: DecidedAt(a.1, b.1, n, CharLess))
  {
    LexLessIff(a.0, b.0, CharLess);
    LexLessIff(a.1, b.1, CharLess);
  }

  lemma PairLessStrictTotal()
    ensures StrictTotal(PairLess)
  {
    StringLessStrictTotal();
  }

  /** Walking a map keyed by strings. */
  function StringsInOrder(s: set<string>): (r: seq<string>)
    ensures forall x :: x in r <==> x in s
    ensures |r| == |s|
  {
    StringLessStrictTotal();
    InOrder(s, StringLess)
  }

  lemma StringsInOrderIncreasing(s: set<string>)
    ensures Increasing(StringsInOrder(s), StringLess)
  {
    StringLessStrictTotal();
    InOrderIncreasing(s, StringLess);
  }

  /** Walking a map keyed by pairs of strings. */
  function PairsInOrder(s: set<(string, string)>): (r: seq<(string, string)>)
    ensures forall x :: x in r <==> x in s
    ensures |r| == |s|
  {
    PairLessStrictTotal();
    InOrder(s, PairLess)
  }
}
