/** Small shared vocabulary: optional values (a dictionary key that may be
    absent), the integer minimum used by every capped score, and the set of
    elements of a sequence. */
module Common {

  /** A value that may be missing, as a key absent from a result dictionary. */
  datatype Option<+T> = None | Some(value: T) {

    /** The value, or `default` when missing: Python's `d.get(key, default)`. */
    function GetOr(default: T): T {
      match this
      case Some(v) => v
      case None => default
    }
  }

  /** Python's `min(a, b)` on integers. */
  function Min(a: int, b: int): (r: int)
    ensures r <= a && r <= b
    ensures r == a || r == b
  {
    if a <= b then a else b
  }

  /** The elements of a sequence, as Python's `set(xs)`. */
  function Elems<T>(xs: seq<T>): set<T> {
    set x | x in xs
  }

  /** No element occurs twice. */
  predicate Distinct<T(==)>(xs: seq<T>) {
    forall i, j :: 0 <= i < j < |xs| ==> xs[i] != xs[j]
  }

  /** A sequence has at least as many positions as distinct elements. */
  lemma {:induction false} ElemsCardinality<T>(xs: seq<T>)
    ensures |Elems(xs)| <= |xs|
    ensures Distinct(xs) ==> |Elems(xs)| == |xs|
  {
    if |xs| > 0 {
      var init := xs[..|xs| - 1];
      ElemsCardinality(init);
      assert Elems(xs) == Elems(init) + {xs[|xs| - 1]} by {
        assert xs == init + [xs[|xs| - 1]];
      }
      if Distinct(xs) {
        assert Distinct(init);
        assert xs[|xs| - 1] !in Elems(init);
      }
    }
  }

  /** The set of values `f` takes on the elements of `xs`, as Python's
      `{f(x) for x in xs}`. */
  function ImageOf<T, U(!new)>(xs: seq<T>, f: T -> U): (r: set<U>)
    ensures |r| <= |xs|
    ensures forall y :: y in r <==> exists i :: 0 <= i < |xs| && f(xs[i]) == y
  {
    if |xs| == 0 then {}
    else
      var init := xs[..|xs| - 1];
      var before := ImageOf(init, f);
      assert forall i :: 0 <= i < |init| ==> init[i] == xs[i];
      AddOneCardinality(before, f(xs[|xs| - 1]));
      before + {f(xs[|xs| - 1])}
  }

  /** Adding one element grows a set by at most one. */
  lemma AddOneCardinality<T>(s: set<T>, x: T)
    ensures |s + {x}| <= |s| + 1
  {
    if x !in s {
      assert |s + {x}| == |s| + 1;
    } else {
      assert s + {x} == s;
    }
  }
}
