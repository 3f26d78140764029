/**
  Strict total orders, the lexicographic order they induce on sequences, and
  the ascending enumeration of a set: the iteration order of an ordered map.
  */
module Orders {

  ghost predicate StrictOrder<T(!new)>(less: (T, T) -> bool) {
    && (forall x :: !less(x, x))
    && (forall x, y :: x == y || less(x, y) || less(y, x))
    && (forall x, y, z :: less(x, y) && less(y, z) ==> less(x, z))
  }

  /** Sequence comparison: the first difference decides, and a proper prefix is less. */
  predicate Lex<T(==)>(less: (T, T) -> bool, a: seq<T>, b: seq<T>) {
    if b == [] then false
    else if a == [] then true
    else if a[0] == b[0] then Lex(less, a[1..], b[1..])
    else less(a[0], b[0])
  }

  lemma {:induction false} LexConnected<T(!new)>(less: (T, T) -> bool, a: seq<T>, b: seq<T>)
    requires StrictOrder(less)
    ensures a == b || Lex(less, a, b) || Lex(less, b, a)
  {
    if a != [] && b != [] && a[0] == b[0] {
      LexConnected(less, a[1..], b[1..]);
      assert a == [a[0]] + a[1..] && b == [b[0]] + b[1..];
    }
  }

  lemma {:induction false} LexTransitive<T(!new)>(less: (T, T) -> bool, a: seq<T>, b: seq<T>, c: seq<T>)
    requires StrictOrder(less) && Lex(less, a, b) && Lex(less, b, c)
    ensures Lex(less, a, c)
  {
    if a != [] && a[0] == b[0] == c[0] {
      LexTransitive(less, a[1..], b[1..], c[1..]);
    }
  }

  lemma {:induction false} LexIrreflexive<T(!new)>(less: (T, T) -> bool, a: seq<T>)
    ensures !Lex(less, a, a)
  {
    if a != [] {
      LexIrreflexive(less, a[1..]);
    }
  }

  lemma Asymmetric<T(!new)>(less: (T, T) -> bool, x: T, y: T)
    requires StrictOrder(less) && less(x, y)
    ensures !less(y, x) && x != y
  {
  }

  /** The least element of a tail of an ascending sequence is its head. */
  lemma LeastOfTail<T(!new)>(less: (T, T) -> bool, xs: seq<T>, i: nat, x: T)
    requires StrictOrder(less) && Ascending(less, xs) && i < |xs| && x in xs[i..]
    requires forall y <- xs[i..] :: y == x || less(x, y)
    ensures x == xs[i]
  {
    var j :| i <= j < |xs| && xs[j] == x;
    assert xs[i..][0] == xs[i];
    if j > i {
      Asymmetric(less, xs[i], xs[j]);
    }
  }

  predicate CharLess(a: char, b: char) {
    a < b
  }

  predicate StringLess(a: string, b: string) {
    Lex(CharLess, a, b)
  }

  /** A strict total order on elements induces one on sequences. */
  lemma LexOrder<T(!new)>(less: (T, T) -> bool, lex: (seq<T>, seq<T>) -> bool)
    requires StrictOrder(less) && forall a, b :: lex(a, b) <==> Lex(less, a, b)
    ensures StrictOrder(lex)
  {
    forall a, b, c | lex(a, b) && lex(b, c)
      ensures lex(a, c)
    {
      LexTransitive(less, a, b, c);
    }
    forall a, b
      ensures a == b || lex(a, b) || lex(b, a)
    {
      LexConnected(less, a, b);
    }
    forall a
      ensures !lex(a, a)
    {
      LexIrreflexive(less, a);
    }
  }

  lemma StringOrder()
    ensures StrictOrder(StringLess)
  {
    LexOrder(CharLess, StringLess);
  }

  ghost predicate IsLeast<T(!new)>(less: (T, T) -> bool, x: T, s: set<T>) {
    x in s && forall y <- s :: y == x || less(x, y)
  }

  lemma LeastExists<T(!new)>(less: (T, T) -> bool, s: set<T>) returns (x: T)
    requires StrictOrder(less) && s != {}
    ensures IsLeast(less, x, s)
  {
    var y :| y in s;
    if s == {y} {
      x := y;
    } else {
      var rest := s - {y};
      assert s == rest + {y};
      x := LeastExists(less, rest);
      if less(y, x) {
        x := y;
      }
    }
  }

  ghost predicate Ascending<T(!new)>(less: (T, T) -> bool, xs: seq<T>) {
    forall i, j | 0 <= i < j < |xs| :: less(xs[i], xs[j])
  }

  /** The elements of `s` in ascending order. */
  ghost function Sorted<T(!new)>(less: (T, T) -> bool, s: set<T>): (xs: seq<T>)
    requires StrictOrder(less)
    ensures Ascending(less, xs)
    ensures forall x :: x in xs <==> x in s
    ensures |xs| == |s|
    decreases |s|
  {
    if s == {} then []
    else
      assert exists x :: IsLeast(less, x, s) by {
        var x := LeastExists(less, s);
      }
      var x :| IsLeast(less, x, s);
      [x] + Sorted(less, s - {x})
  }

  /** An ascending sequence is determined by its elements. */
  lemma {:induction false} SortedUnique<T(!new)>(less: (T, T) -> bool, xs: seq<T>, ys: seq<T>)
    requires StrictOrder(less) && Ascending(less, xs) && Ascending(less, ys)
    requires forall x :: x in xs <==> x in ys
    ensures xs == ys
  {
    assert xs != [] ==> xs[0] in xs;
    assert ys != [] ==> ys[0] in ys;
    if xs != [] && ys != [] {
      assert xs[0] in ys && ys[0] in xs;
      assert xs[0] == ys[0];
      var x := xs[0];
      assert xs == [x] + xs[1..] && ys == [x] + ys[1..];
      forall y
        ensures y in xs[1..] <==> y in ys[1..]
      {
        assert y in xs[1..] <==> y in xs && y != x;
        assert y in ys[1..] <==> y in ys && y != x;
      }
      SortedUnique(less, xs[1..], ys[1..]);
    }
  }

  ghost predicate Distinct<T(!new)>(xs: seq<T>) {
    forall i, j | 0 <= i < j < |xs| :: xs[i] != xs[j]
  }

  function Insert<T>(less: (T, T) -> bool, x: T, xs: seq<T>): seq<T> {
    if xs != [] && less(xs[0], x) then [xs[0]] + Insert(less, x, xs[1..]) else [x] + xs
  }

  /** A library sort. */
  function Sort<T>(less: (T, T) -> bool, xs: seq<T>): seq<T> {
    if xs == [] then [] else Insert(less, xs[0], Sort(less, xs[1..]))
  }

  lemma {:induction false} InsertAscending<T(!new)>(less: (T, T) -> bool, x: T, xs: seq<T>)
    requires StrictOrder(less) && Ascending(less, xs) && x !in xs
    ensures Ascending(less, Insert(less, x, xs))
    ensures forall y :: y in Insert(less, x, xs) <==> y == x || y in xs
  {
    if xs != [] && less(xs[0], x) {
      InsertAscending(less, x, xs[1..]);
      assert forall y :: y in xs <==> y == xs[0] || y in xs[1..];
      var tail := Insert(less, x, xs[1..]);
      forall y | y in tail
        ensures less(xs[0], y)
      {
        if y != x {
          var i :| 1 <= i < |xs| && xs[i] == y;
        }
      }
      assert forall j | 0 <= j < |tail| :: tail[j] in tail;
    } else if xs != [] {
      assert less(x, xs[0]) by { assert xs[0] in xs; }
    }
  }

  /** Sorting distinct elements puts them in ascending order. */
  lemma {:induction false} SortAscending<T(!new)>(less: (T, T) -> bool, xs: seq<T>)
    requires StrictOrder(less) && Distinct(xs)
    ensures Ascending(less, Sort(less, xs))
    ensures forall y :: y in Sort(less, xs) <==> y in xs
  {
    if xs != [] {
      SortAscending(less, xs[1..]);
      assert forall y :: y in xs <==> y == xs[0] || y in xs[1..];
      InsertAscending(less, xs[0], Sort(less, xs[1..]));
    }
  }
}
