/** Python's ordering of `str` values and `sorted(set(xs))` on strings.

    Strings compare by code point, position by position; a proper prefix
    comes first. `SortedUnique` returns the distinct elements in strictly
    ascending order, and `SortedUniqueDetermined` shows that this contract
    pins the result down completely. */
module StringOrder {
  import opened Common

  /** `a < b` on Python strings. */
  predicate Less(a: string, b: string) {
    if |a| == 0 then |b| != 0
    else if |b| == 0 then false
    else if a[0] != b[0] then a[0] < b[0]
    else Less(a[1..], b[1..])
  }

  lemma {:induction false} LessIrreflexive(a: string)
    ensures !Less(a, a)
  {
    if |a| > 0 {
      LessIrreflexive(a[1..]);
    }
  }

  lemma {:induction false} LessTransitive(a: string, b: string, c: string)
    requires Less(a, b) && Less(b, c)
    ensures Less(a, c)
  {
    if |a| > 0 && |b| > 0 && |c| > 0 && a[0] == b[0] && b[0] == c[0] {
      LessTransitive(a[1..], b[1..], c[1..]);
    }
  }

  /** Any two different strings are ordered one way or the other. */
  lemma {:induction false} LessTotal(a: string, b: string)
    ensures a == b || Less(a, b) || Less(b, a)
  {
    if |a| > 0 && |b| > 0 && a[0] == b[0] {
      LessTotal(a[1..], b[1..]);
      if a[1..] == b[1..] {
        assert a == [a[0]] + a[1..] && b == [b[0]] + b[1..];
      }
    }
  }

  lemma LessAsymmetric(a: string, b: string)
    requires Less(a, b)
    ensures !Less(b, a)
  {
    if Less(b, a) {
      LessTransitive(a, b, a);
      LessIrreflexive(a);
    }
  }

  /** Strictly ascending, hence also without duplicates. */
  predicate StrictlySorted(xs: seq<string>) {
    forall i, j :: 0 <= i < j < |xs| ==> Less(xs[i], xs[j])
  }

  /** Adds `x` to a strictly ascending sequence, keeping it strictly ascending. */
  function Insert(xs: seq<string>, x: string): (r: seq<string>)
    requires StrictlySorted(xs)
    ensures StrictlySorted(r)
    ensures Elems(r) == Elems(xs) + {x}
  {
    if |xs| == 0 then [x]
    else if x == xs[0] then xs
    else if Less(x, xs[0]) then
      InsertFront(xs, x);
      [x] + xs
    else
      LessTotal(x, xs[0]);
      var rest := Insert(xs[1..], x);
      InsertAfterHead(xs, x, rest);
      [xs[0]] + rest
  }

  /** Inserting behind the head: the head stays in front of the insertion
      into the tail. */
  lemma InsertAfterHead(xs: seq<string>, x: string, rest: seq<string>)
    requires StrictlySorted(xs) && |xs| > 0 && Less(xs[0], x)
    requires StrictlySorted(rest) && Elems(rest) == Elems(xs[1..]) + {x}
    ensures StrictlySorted([xs[0]] + rest)
    ensures Elems([xs[0]] + rest) == Elems(xs) + {x}
  {
    assert Elems(xs) == {xs[0]} + Elems(xs[1..]) by {
      assert xs == [xs[0]] + xs[1..];
    }
    forall k | 0 <= k < |rest| ensures Less(xs[0], rest[k]) {
      assert rest[k] in Elems(rest);
      if rest[k] != x {
        var i :| 0 <= i < |xs[1..]| && xs[1..][i] == rest[k];
        assert xs[i + 1] == rest[k];
      }
    }
    assert Elems([xs[0]] + rest) == {xs[0]} + Elems(rest);
  }

  lemma InsertFront(xs: seq<string>, x: string)
    requires StrictlySorted(xs) && |xs| > 0 && Less(x, xs[0])
    ensures StrictlySorted([x] + xs)
  {
    forall j | 0 < j < |xs| ensures Less(x, xs[j]) {
      LessTransitive(x, xs[0], xs[j]);
    }
  }

  /** `sorted(set(xs))`: the distinct elements of `xs`, strictly ascending. */
  function SortedUnique(xs: seq<string>): (r: seq<string>)
    ensures StrictlySorted(r)
    ensures Elems(r) == Elems(xs)
  {
    if |xs| == 0 then []
    else
      var init := xs[..|xs| - 1];
      assert xs == init + [xs[|xs| - 1]];
      Insert(SortedUnique(init), xs[|xs| - 1])
  }

  /** A strictly ascending sequence has no duplicates. */
  lemma StrictlySortedDistinct(xs: seq<string>)
    requires StrictlySorted(xs)
    ensures Distinct(xs)
  {
    forall i, j | 0 <= i < j < |xs| ensures xs[i] != xs[j] {
      LessIrreflexive(xs[i]);
    }
  }

  /** Two strictly ascending sequences with the same elements are equal, so
      `SortedUnique`'s contract determines its result. */
  lemma {:induction false} SortedUniqueDetermined(a: seq<string>, b: seq<string>)
    requires StrictlySorted(a) && StrictlySorted(b)
    requires Elems(a) == Elems(b)
    ensures a == b
  {
    assert |a| > 0 ==> a[0] in Elems(a);
    assert |b| > 0 ==> b[0] in Elems(b);
    if |a| > 0 && |b| > 0 {
      if a[0] != b[0] {
        var k :| 0 <= k < |b| && b[k] == a[0];
        var m :| 0 <= m < |a| && a[m] == b[0];
        assert Less(b[0], a[0]);
        assert Less(a[0], b[0]);
        LessAsymmetric(a[0], b[0]);
      }
      assert a == [a[0]] + a[1..] && b == [b[0]] + b[1..];
      assert Elems(a[1..]) == Elems(b[1..]) by {
        StrictlySortedDistinct(a);
        StrictlySortedDistinct(b);
        assert Elems(a) == {a[0]} + Elems(a[1..]);
        assert Elems(b) == {b[0]} + Elems(b[1..]);
        assert a[0] !in Elems(a[1..]);
        assert b[0] !in Elems(b[1..]);
      }
      SortedUniqueDetermined(a[1..], b[1..]);
    }
  }
}
