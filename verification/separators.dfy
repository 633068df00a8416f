/** Where `normalize_text` keeps a word separator.

    Cut a text at one whitespace run `w`, between a part `a` that ends in a
    non-whitespace character and a part `b` that starts with one. The first
    substitution deletes `w` exactly when the character before it is a
    letter that starts a word and the character after it is a letter that
    ends a word; otherwise `w` survives unchanged, and after the second
    substitution it is a single space. Everything else is normalized
    within `a` and within `b` independently. */
module WordSeparators {
  import opened Text
  import opened Selection
  import opened TextNormalizer

  predicate AllSpace(w: string) {
    forall i :: 0 <= i < |w| ==> IsSpace(w[i])
  }

  /** The run between `a` and `b` is one the first substitution deletes:
      `a` ends with a word-opening letter and `b` starts with a word-closing
      one. */
  predicate GapBetween(a: string, b: string)
    requires |a| > 0 && |b| > 0
  {
    OpensWord(a, |a| - 1) && ClosesWord(b, 0)
  }

  // ---------------------------------------------------------------------
  // Whitespace runs are local
  // ---------------------------------------------------------------------

  /** `RunStart` is the only position with its three properties. */
  lemma RunStartUnique(s: string, i: nat, r: nat)
    requires r <= i <= |s|
    requires forall k :: r <= k < i ==> IsSpace(s[k])
    requires r == 0 || !IsSpace(s[r - 1])
    ensures RunStart(s, i) == r
  {
  }

  /** `RunEnd` is the only position with its three properties. */
  lemma RunEndUnique(s: string, i: nat, e: nat)
    requires i <= e <= |s|
    requires forall k :: i <= k < e ==> IsSpace(s[k])
    requires e == |s| || !IsSpace(s[e])
    ensures RunEnd(s, i) == e
  {
  }

  /** A position of `a` is squeezed in `a + t` exactly when it is squeezed in
      `a`, provided `a` ends in a non-whitespace character and `t` starts
      with whitespace. */
  lemma SqueezedLeft(a: string, t: string, i: nat)
    requires |a| > 0 && !IsSpace(a[|a| - 1]) && |t| > 0 && IsSpace(t[0])
    requires i < |a|
    ensures Squeezed(a + t, i) == Squeezed(a, i)
  {
    var s := a + t;
    assert s[i] == a[i];
    if IsSpace(a[i]) {
      var st, e := RunStart(a, i), RunEnd(a, i);
      assert e < |a|;
      RunStartUnique(s, i, st);
      RunEndUnique(s, i, e);
      assert s[e] == a[e];
      assert e + 1 < |a| ==> s[e + 1] == a[e + 1];
      assert e + 1 == |a| ==> s[e + 1] == t[0];
    }
  }

  /** A position of `b` is squeezed in `p + b` exactly when it is squeezed in
      `b`, provided `p` ends with whitespace and `b` starts with a
      non-whitespace character. */
  lemma SqueezedRight(p: string, b: string, k: nat)
    requires |p| > 0 && IsSpace(p[|p| - 1]) && |b| > 0 && !IsSpace(b[0])
    requires k < |b|
    ensures Squeezed(p + b, |p| + k) == Squeezed(b, k)
  {
    var s := p + b;
    var o := |p|;
    assert s[o + k] == b[k];
    if IsSpace(b[k]) {
      var st, e := RunStart(b, k), RunEnd(b, k);
      assert st > 0;
      RunStartUnique(s, o + k, o + st);
      RunEndUnique(s, o + k, o + e);
      assert s[o + st - 1] == b[st - 1];
      assert st > 1 ==> s[o + st - 2] == b[st - 2];
      assert st == 1 ==> s[o + st - 2] == p[|p| - 1];
      assert e < |b| ==> s[o + e] == b[e];
      assert e + 1 < |b| ==> s[o + e + 1] == b[e + 1];
    }
  }

  /** A position of the run between `a` and `b` is squeezed exactly when the
      run is a gap between letters. */
  lemma SqueezedMiddle(a: string, w: string, b: string, i: nat)
    requires |a| > 0 && !IsSpace(a[|a| - 1]) && |b| > 0 && !IsSpace(b[0])
    requires AllSpace(w) && i < |w|
    ensures Squeezed(a + w + b, |a| + i) == GapBetween(a, b)
  {
    var s := a + w + b;
    var e := |a| + |w|;
    assert forall k :: |a| <= k < e ==> s[k] == w[k - |a|];
    RunStartUnique(s, |a| + i, |a|);
    RunEndUnique(s, |a| + i, e);
    assert s[|a| - 1] == a[|a| - 1];
    assert |a| > 1 ==> s[|a| - 2] == a[|a| - 2];
    assert s[e] == b[0];
    assert |b| > 1 ==> s[e + 1] == b[1];
  }

  /** The deletion mask of the whole text is made of the parts' masks. */
  lemma GapMaskSplit(a: string, w: string, b: string)
    requires |a| > 0 && !IsSpace(a[|a| - 1]) && |b| > 0 && !IsSpace(b[0])
    requires |w| > 0 && AllSpace(w)
    ensures GapMask(a + w + b) == GapMask(a) + seq(|w|, _ => !GapBetween(a, b)) + GapMask(b)
  {
    var s := a + w + b;
    var mw := seq(|w|, _ => !GapBetween(a, b));
    var m := GapMask(a) + mw + GapMask(b);
    forall i | 0 <= i < |s| ensures GapMask(s)[i] == m[i] {
      if i < |a| {
        assert m[i] == GapMask(a)[i];
        GapMaskLeft(a, w, b, i);
      } else if i < |a| + |w| {
        assert m[i] == mw[i - |a|];
        GapMaskMiddle(a, w, b, i);
      } else {
        assert m[i] == GapMask(b)[i - |a| - |w|];
        GapMaskRight(a, w, b, i);
      }
    }
  }

  lemma GapMaskLeft(a: string, w: string, b: string, i: nat)
    requires |a| > 0 && !IsSpace(a[|a| - 1]) && |b| > 0 && !IsSpace(b[0])
    requires |w| > 0 && AllSpace(w)
    requires i < |a|
    ensures GapMask(a + w + b)[i] == GapMask(a)[i]
  {
    assert a + w + b == a + (w + b);
    SqueezedLeft(a, w + b, i);
  }

  lemma GapMaskMiddle(a: string, w: string, b: string, i: nat)
    requires |a| > 0 && !IsSpace(a[|a| - 1]) && |b| > 0 && !IsSpace(b[0])
    requires AllSpace(w) && |a| <= i < |a| + |w|
    ensures GapMask(a + w + b)[i] == !GapBetween(a, b)
  {
    SqueezedMiddle(a, w, b, i - |a|);
  }

  lemma GapMaskRight(a: string, w: string, b: string, i: nat)
    requires |w| > 0 && AllSpace(w) && |b| > 0 && !IsSpace(b[0])
    requires |a| + |w| <= i < |a| + |w| + |b|
    ensures GapMask(a + w + b)[i] == GapMask(b)[i - |a| - |w|]
  {
    assert (a + w)[|a + w| - 1] == w[|w| - 1];
    SqueezedRight(a + w, b, i - |a| - |w|);
  }

  // ---------------------------------------------------------------------
  // The first substitution
  // ---------------------------------------------------------------------

  /** `JoinLetters` deletes the run between `a` and `b` exactly when it is
      a gap between letters, keeps it unchanged otherwise, and treats `a`
      and `b` on their own. */
  lemma JoinAround(a: string, w: string, b: string)
    requires |a| > 0 && !IsSpace(a[|a| - 1]) && |b| > 0 && !IsSpace(b[0])
    requires |w| > 0 && AllSpace(w)
    ensures JoinLetters(a + w + b) == JoinLetters(a) + (if GapBetween(a, b) then [] else w) + JoinLetters(b)
  {
    GapMaskSplit(a, w, b);
    var mw := seq(|w|, _ => !GapBetween(a, b));
    SelectAppend(a + w, b, GapMask(a) + mw, GapMask(b));
    SelectAppend(a, w, GapMask(a), mw);
    if GapBetween(a, b) {
      SelectNone(w, mw);
    } else {
      SelectAll(w, mw);
    }
  }

  /** A non-whitespace first character survives the first substitution. */
  lemma JoinLettersFirst(b: string)
    requires |b| > 0 && !IsSpace(b[0])
    ensures var j := JoinLetters(b); |j| > 0 && j[0] == b[0]
  {
    SelectFirst(b, GapMask(b));
  }

  /** A non-whitespace last character survives the first substitution. */
  lemma JoinLettersLast(a: string)
    requires |a| > 0 && !IsSpace(a[|a| - 1])
    ensures var j := JoinLetters(a); |j| > 0 && j[|j| - 1] == a[|a| - 1]
  {
    SelectLast(a, GapMask(a));
  }

  // ---------------------------------------------------------------------
  // The second substitution and the whole normalization
  // ---------------------------------------------------------------------

  /** Text starting with a non-whitespace character is collapsed on its own. */
  lemma {:induction false} ReplaceRunsAppend(p: string, y: string)
    requires |y| > 0 && !IsSpace(y[0])
    ensures ReplaceRuns(p + y) == ReplaceRuns(p) + ReplaceRuns(y)
    decreases |y|
  {
    var t := p + y;
    var c := y[|y| - 1];
    var y' := y[..|y| - 1];
    assert t[..|t| - 1] == p + y' && t[|t| - 1] == c;
    if |y| == 1 {
      assert y' == [] && p + y' == p;
      assert ReplaceRuns(y) == ReplaceRuns([]) + [c];
    } else {
      ReplaceRunsAppend(p, y');
      assert (p + y')[|p + y'| - 1] == y'[|y'| - 1];
      var piece :=
        if !IsSpace(c) then [c]
        else if IsSpace(y'[|y'| - 1]) then []
        else [' '];
      assert ReplaceRuns(y) == ReplaceRuns(y') + piece;
      AppendStep(ReplaceRuns(t), ReplaceRuns(p + y'), ReplaceRuns(p), ReplaceRuns(y'), ReplaceRuns(y), piece);
    }
  }

  /** A whitespace run after a non-whitespace character becomes one space. */
  lemma {:induction false} ReplaceRunsSpaces(x: string, g: string)
    requires |x| == 0 || !IsSpace(x[|x| - 1])
    requires AllSpace(g)
    ensures ReplaceRuns(x + g) == ReplaceRuns(x) + (if |g| > 0 then " " else "")
    decreases |g|
  {
    if |g| == 0 {
      assert x + g == x;
    } else {
      var g' := g[..|g| - 1];
      ReplaceRunsSpaces(x, g');
      var t := x + g;
      var init := x + g';
      assert t[..|t| - 1] == init && IsSpace(t[|t| - 1]);
      if |g'| > 0 {
        assert init[|init| - 1] == g'[|g'| - 1];
        assert ReplaceRuns(t) == ReplaceRuns(init);
      } else {
        assert init == x;
        assert ReplaceRuns(t) == ReplaceRuns(x) + [' '];
      }
    }
  }

  /** The second substitution around a run between two non-whitespace
      characters. */
  lemma CollapseAround(x: string, g: string, y: string)
    requires |x| > 0 && !IsSpace(x[|x| - 1]) && |y| > 0 && !IsSpace(y[0])
    requires AllSpace(g)
    ensures ReplaceRuns(x + g + y) == ReplaceRuns(x) + (if |g| > 0 then " " else "") + ReplaceRuns(y)
  {
    ReplaceRunsAppend(x + g, y);
    ReplaceRunsSpaces(x, g);
  }

  lemma LowerAround(x: string, sp: string, y: string)
    requires sp == "" || sp == " "
    ensures Lower(x + sp + y) == Lower(x) + sp + Lower(y)
  {
    LowerAppend(x + sp, y);
    LowerAppend(x, sp);
    assert Lower(sp) == sp;
  }

  /** `normalize_text` puts one space where the run between `a` and `b`
      was, unless the run is a gap between letters, which disappears; `a`
      and `b` are normalized on their own. */
  lemma NormalizeAround(a: string, w: string, b: string)
    requires |a| > 0 && !IsSpace(a[|a| - 1]) && |b| > 0 && !IsSpace(b[0])
    requires |w| > 0 && AllSpace(w)
    ensures NormalizeText(a + w + b) ==
            NormalizeText(a) + (if GapBetween(a, b) then "" else " ") + NormalizeText(b)
  {
    var ja, jb := JoinLetters(a), JoinLetters(b);
    var g := if GapBetween(a, b) then [] else w;
    JoinAround(a, w, b);
    JoinLettersLast(a);
    JoinLettersFirst(b);
    CollapseAround(ja, g, jb);
    LowerAround(CollapseSpaces(ja), if GapBetween(a, b) then "" else " ", CollapseSpaces(jb));
  }
}
