/** Deleting characters from a string, described by a keep-mask.

    A regular-expression substitution that replaces some characters by the
    empty string keeps the others in order. `Select` is that operation;
    `Positions` maps each position of the result back to the position of the
    original it came from, and `Rank` counts the kept positions before a
    given one. The contracts below are the bookkeeping the normalizer's
    proofs rely on. */
module Selection {

  /** The number of kept positions below `n`. */
  function Rank(keep: seq<bool>, n: nat): (r: nat)
    requires n <= |keep|
    ensures r <= n
  {
    if n == 0 then 0 else Rank(keep, n - 1) + (if keep[n - 1] then 1 else 0)
  }

  /** The kept positions below `n`, in increasing order. */
  function Positions(keep: seq<bool>, n: nat): (r: seq<nat>)
    requires n <= |keep|
    ensures |r| == Rank(keep, n)
    ensures forall j :: 0 <= j < |r| ==> r[j] < n && keep[r[j]]
    ensures forall j, k :: 0 <= j < k < |r| ==> r[j] < r[k]
  {
    if n == 0 then [] else Positions(keep, n - 1) + (if keep[n - 1] then [n - 1] else [])
  }

  /** A longer prefix has at least as many kept positions. */
  lemma {:induction false} RankMonotone(keep: seq<bool>, m: nat, n: nat)
    requires m <= n <= |keep|
    ensures Rank(keep, m) <= Rank(keep, n)
    decreases n - m
  {
    if m < n {
      RankMonotone(keep, m, n - 1);
    }
  }

  /** Positions below `m` are listed the same way in every longer prefix. */
  lemma {:induction false} PositionsExtend(keep: seq<bool>, m: nat, n: nat)
    requires m <= n <= |keep|
    ensures Rank(keep, m) <= Rank(keep, n)
    ensures Positions(keep, m) == Positions(keep, n)[..Rank(keep, m)]
    decreases n - m
  {
    RankMonotone(keep, m, n);
    if m < n {
      PositionsExtend(keep, m, n - 1);
      var prev := Positions(keep, n - 1);
      var whole := Positions(keep, n);
      assert whole == prev + (if keep[n - 1] then [n - 1] else []);
      assert whole[..Rank(keep, m)] == prev[..Rank(keep, m)];
    }
  }

  /** The `j`-th kept position has exactly `j` kept positions before it. */
  lemma {:induction false} RankOfPosition(keep: seq<bool>, n: nat, j: nat)
    requires n <= |keep| && j < Rank(keep, n)
    ensures Rank(keep, Positions(keep, n)[j]) == j
  {
    var prev := Positions(keep, n - 1);
    if j < |prev| {
      RankOfPosition(keep, n - 1, j);
      assert Positions(keep, n)[j] == prev[j];
    }
  }

  /** A kept position `i` is listed as the `Rank(keep, i)`-th one. */
  lemma {:induction false} PositionOfKept(keep: seq<bool>, n: nat, i: nat)
    requires i < n <= |keep| && keep[i]
    ensures Rank(keep, i) < Rank(keep, n)
    ensures Positions(keep, n)[Rank(keep, i)] == i
  {
    PositionsExtend(keep, i + 1, n);
    var p := Positions(keep, i + 1);
    assert p == Positions(keep, i) + [i];
    assert p[Rank(keep, i)] == i;
    assert Positions(keep, n)[..Rank(keep, i + 1)][Rank(keep, i)] == i;
  }

  /** When the position just before the `j`-th kept one is kept too, it is
      the `(j-1)`-th kept position. */
  lemma KeptPredecessor(keep: seq<bool>, j: nat)
    requires j < Rank(keep, |keep|)
    requires var c := Positions(keep, |keep|)[j]; 0 < c && keep[c - 1]
    ensures 0 < j && Positions(keep, |keep|)[j - 1] == Positions(keep, |keep|)[j] - 1
  {
    var c := Positions(keep, |keep|)[j];
    RankOfPosition(keep, |keep|, j);
    PositionOfKept(keep, |keep|, c - 1);
  }

  /** When the position just after the `j`-th kept one is kept too, it is
      the `(j+1)`-th kept position. */
  lemma KeptSuccessor(keep: seq<bool>, j: nat)
    requires j < Rank(keep, |keep|)
    requires var c := Positions(keep, |keep|)[j]; c + 1 < |keep| && keep[c + 1]
    ensures j + 1 < Rank(keep, |keep|) && Positions(keep, |keep|)[j + 1] == Positions(keep, |keep|)[j] + 1
  {
    var c := Positions(keep, |keep|)[j];
    RankOfPosition(keep, |keep|, j);
    PositionOfKept(keep, |keep|, c + 1);
  }

  /** A kept position strictly between the `lo`-th and `hi`-th kept ones is
      listed strictly between them. */
  lemma KeptBetween(keep: seq<bool>, lo: nat, hi: nat, i: nat)
    requires lo < hi < Rank(keep, |keep|)
    requires Positions(keep, |keep|)[lo] < i < Positions(keep, |keep|)[hi] && keep[i]
    ensures lo < Rank(keep, i) < hi && Positions(keep, |keep|)[Rank(keep, i)] == i
  {
    PositionOfKept(keep, |keep|, i);
  }

  /** The kept elements among the first `n`, in order. */
  function SelectPrefix<T>(xs: seq<T>, keep: seq<bool>, n: nat): (r: seq<T>)
    requires |xs| == |keep| && n <= |xs|
    ensures |r| == Rank(keep, n)
    ensures forall j :: 0 <= j < |r| ==> r[j] == xs[Positions(keep, n)[j]]
  {
    if n == 0 then [] else SelectPrefix(xs, keep, n - 1) + (if keep[n - 1] then [xs[n - 1]] else [])
  }

  /** The kept elements of `xs`, in order: the `j`-th element of the result
      is the element at the `j`-th kept position. */
  function Select<T>(xs: seq<T>, keep: seq<bool>): (r: seq<T>)
    requires |xs| == |keep|
    ensures |r| == Rank(keep, |keep|) <= |xs|
    ensures forall j :: 0 <= j < |r| ==> r[j] == xs[Positions(keep, |keep|)[j]]
  {
    SelectPrefix(xs, keep, |xs|)
  }

  /** Keeping every position counts every position. */
  lemma {:induction false} RankAll(keep: seq<bool>, n: nat)
    requires n <= |keep|
    requires forall i :: 0 <= i < |keep| ==> keep[i]
    ensures Rank(keep, n) == n
  {
    if n > 0 {
      RankAll(keep, n - 1);
    }
  }

  /** A mask that keeps everything leaves the sequence unchanged. */
  lemma SelectAll<T>(xs: seq<T>, keep: seq<bool>)
    requires |xs| == |keep|
    requires forall i :: 0 <= i < |keep| ==> keep[i]
    ensures Select(xs, keep) == xs
  {
    var r := Select(xs, keep);
    RankAll(keep, |keep|);
    forall i | 0 <= i < |keep|
      ensures r[i] == xs[i]
    {
      RankAll(keep, i);
      PositionOfKept(keep, |keep|, i);
    }
  }

  /** A mask that drops everything leaves nothing. */
  lemma {:induction false} RankNone(keep: seq<bool>, n: nat)
    requires n <= |keep|
    requires forall i :: 0 <= i < |keep| ==> !keep[i]
    ensures Rank(keep, n) == 0
  {
    if n > 0 {
      RankNone(keep, n - 1);
    }
  }

  lemma SelectNone<T>(xs: seq<T>, keep: seq<bool>)
    requires |xs| == |keep|
    requires forall i :: 0 <= i < |keep| ==> !keep[i]
    ensures Select(xs, keep) == []
  {
    RankNone(keep, |keep|);
  }

  /** A mask that keeps the first position keeps the first element first. */
  lemma SelectFirst<T>(xs: seq<T>, keep: seq<bool>)
    requires |xs| == |keep| > 0 && keep[0]
    ensures var r := Select(xs, keep); |r| > 0 && r[0] == xs[0]
  {
    PositionOfKept(keep, |keep|, 0);
  }

  /** A mask that keeps the last position keeps the last element last. */
  lemma SelectLast<T>(xs: seq<T>, keep: seq<bool>)
    requires |xs| == |keep| > 0 && keep[|keep| - 1]
    ensures var r := Select(xs, keep); |r| > 0 && r[|r| - 1] == xs[|xs| - 1]
  {
    PositionOfKept(keep, |keep|, |keep| - 1);
  }

  /** Selecting from a concatenation, up to a position inside the first part,
      sees only the first part. */
  lemma {:induction false} SelectPrefixLeft<T>(xs: seq<T>, ys: seq<T>, kx: seq<bool>, ky: seq<bool>, n: nat)
    requires |xs| == |kx| && |ys| == |ky| && n <= |xs|
    ensures SelectPrefix(xs + ys, kx + ky, n) == SelectPrefix(xs, kx, n)
  {
    if n > 0 {
      SelectPrefixLeft(xs, ys, kx, ky, n - 1);
      assert (xs + ys)[n - 1] == xs[n - 1] && (kx + ky)[n - 1] == kx[n - 1];
    }
  }

  lemma {:induction false} SelectPrefixRight<T>(xs: seq<T>, ys: seq<T>, kx: seq<bool>, ky: seq<bool>, n: nat)
    requires |xs| == |kx| && |ys| == |ky| && n <= |ys|
    ensures SelectPrefix(xs + ys, kx + ky, |xs| + n) == Select(xs, kx) + SelectPrefix(ys, ky, n)
  {
    if n == 0 {
      SelectPrefixLeft(xs, ys, kx, ky, |xs|);
    } else {
      SelectPrefixRight(xs, ys, kx, ky, n - 1);
      var m := |xs| + n;
      assert (xs + ys)[m - 1] == ys[n - 1] && (kx + ky)[m - 1] == ky[n - 1];
      var piece := if ky[n - 1] then [ys[n - 1]] else [];
      AppendStep(SelectPrefix(xs + ys, kx + ky, m), SelectPrefix(xs + ys, kx + ky, m - 1),
                 Select(xs, kx), SelectPrefix(ys, ky, n - 1), SelectPrefix(ys, ky, n), piece);
    }
  }

  /** One step of `SelectPrefixRight`, on plain sequences. */
  lemma AppendStep<T>(whole: seq<T>, prev: seq<T>, left: seq<T>, mid: seq<T>, next: seq<T>, piece: seq<T>)
    requires whole == prev + piece && prev == left + mid && next == mid + piece
    ensures whole == left + next
  {
  }

  /** Deleting from a concatenation deletes from each part. */
  lemma {:induction false} SelectAppend<T>(xs: seq<T>, ys: seq<T>, kx: seq<bool>, ky: seq<bool>)
    requires |xs| == |kx| && |ys| == |ky|
    ensures Select(xs + ys, kx + ky) == Select(xs, kx) + Select(ys, ky)
  {
    SelectPrefixRight(xs, ys, kx, ky, |ys|);
  }
}
