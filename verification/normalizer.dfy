/** `normalize_text` of the resume analyzer: repairs text that a PDF
    extractor rendered with a space between every letter ("P y t h o n"),
    collapses whitespace and lowercases.

    `normalize_text` applies two regular-expression substitutions and then
    `str.lower()`:
      1. `(?<=\b[A-Za-z])\s+(?=[A-Za-z]\b)` -> "" : a whitespace run is deleted
         when the letter just before it starts a word and the letter just
         after it ends a word. Both lookarounds read the ORIGINAL text, so
         every qualifying run is deleted in the same pass (`JoinLetters`).
      2. `\s+` -> " " : every remaining whitespace run becomes one space
         (`CollapseSpaces`).
      3. `lower()` (`Text.Lower`). */
module TextNormalizer {
  import opened Text
  import opened Selection

  // ---------------------------------------------------------------------
  // Whitespace runs and the gaps the first substitution deletes
  // ---------------------------------------------------------------------

  /** Where the whitespace run that ends just before position `i` starts. */
  function RunStart(s: string, i: nat): (r: nat)
    requires i <= |s|
    ensures r <= i
    ensures forall k :: r <= k < i ==> IsSpace(s[k])
    ensures r == 0 || !IsSpace(s[r - 1])
  {
    if i > 0 && IsSpace(s[i - 1]) then RunStart(s, i - 1) else i
  }

  /** Where the whitespace run that starts at position `i` ends (exclusive). */
  function RunEnd(s: string, i: nat): (r: nat)
    requires i <= |s|
    ensures i <= r <= |s|
    ensures forall k :: i <= k < r ==> IsSpace(s[k])
    ensures r == |s| || !IsSpace(s[r])
    decreases |s| - i
  {
    if i < |s| && IsSpace(s[i]) then RunEnd(s, i + 1) else i
  }

  lemma RunStartAfter(s: string, a: nat, c: nat)
    requires a < c <= |s| && !IsSpace(s[a])
    requires forall k :: a < k < c ==> IsSpace(s[k])
    ensures RunStart(s, c) == a + 1
  {
  }

  lemma RunEndBefore(s: string, c: nat, b: nat)
    requires c <= b < |s| && !IsSpace(s[b])
    requires forall k :: c <= k < b ==> IsSpace(s[k])
    ensures RunEnd(s, c) == b
  {
  }

  /** `(?<=\b[A-Za-z])` at position k + 1: a letter at `k` that starts a word. */
  predicate OpensWord(s: string, k: nat)
    requires k < |s|
  {
    IsLetter(s[k]) && (k == 0 || !IsWord(s[k - 1]))
  }

  /** `(?=[A-Za-z]\b)` at position k: a letter at `k` that ends a word. */
  predicate ClosesWord(s: string, k: nat)
    requires k < |s|
  {
    IsLetter(s[k]) && (k + 1 == |s| || !IsWord(s[k + 1]))
  }

  /** Position `i` lies in a whitespace run that the first substitution
      deletes: the run is preceded by a letter that starts a word and
      followed by a letter that ends a word. */
  predicate Squeezed(s: string, i: nat)
    requires i < |s|
  {
    && IsSpace(s[i])
    && var a, b := RunStart(s, i), RunEnd(s, i);
    && 0 < a && b < |s|
    && OpensWord(s, a - 1)
    && ClosesWord(s, b)
  }

  predicate NoSqueezedGap(s: string) {
    forall i :: 0 <= i < |s| ==> !Squeezed(s, i)
  }

  /** Every whitespace character is a plain space and no two are adjacent. */
  predicate SingleSpaced(s: string) {
    && (forall i :: 0 <= i < |s| && IsSpace(s[i]) ==> s[i] == ' ')
    && (forall i :: 0 < i < |s| ==> !(IsSpace(s[i - 1]) && IsSpace(s[i])))
  }

  /** What `normalize_text` produces: lowercase, single-spaced and with no
      letter gap left to close. */
  predicate Normalized(s: string) {
    NoUpper(s) && SingleSpaced(s) && NoSqueezedGap(s)
  }

  // ---------------------------------------------------------------------
  // The three steps
  // ---------------------------------------------------------------------

  function GapMask(s: string): (m: seq<bool>)
    ensures |m| == |s|
  {
    seq(|s|, i requires 0 <= i < |s| => !Squeezed(s, i))
  }

  /** First substitution: delete every squeezed whitespace run. The result
      has no gap left to close, and a text without one is left unchanged. */
  function JoinLetters(s: string): (r: string)
    ensures |r| <= |s|
    ensures Unspaced(r) == Unspaced(s)
    ensures NoSqueezedGap(r)
    ensures NoSqueezedGap(s) ==> r == s
  {
    var m := GapMask(s);
    NoSqueezedGapAfterDeletion(s, m);
    UnspacedSelect(s, m);
    if NoSqueezedGap(s) then SelectAll(s, m); Select(s, m) else Select(s, m)
  }

  /** Keeps the first character of every whitespace run. */
  function RepeatMask(s: string): (m: seq<bool>)
    ensures |m| == |s|
  {
    seq(|s|, i requires 0 <= i < |s| => !(0 < i && IsSpace(s[i - 1]) && IsSpace(s[i])))
  }

  /** Turns every whitespace character into a plain space. */
  function Blank(s: string): (r: string)
    ensures SameShape(s, r)
  {
    var r := seq(|s|, i requires 0 <= i < |s| => if IsSpace(s[i]) then ' ' else s[i]);
    assert forall i :: 0 <= i < |s| ==> r[i] == s[i] || (IsSpace(s[i]) && r[i] == ' ');
    r
  }

  /** `re.sub(r'\s+', ' ', s)` read one character at a time from the left:
      a character other than whitespace is copied, the first whitespace
      character of a run becomes one space and the rest of the run is
      dropped. So every maximal whitespace run leaves exactly one space. */
  function ReplaceRuns(s: string): string
  {
    if |s| == 0 then []
    else
      var init, c := s[..|s| - 1], s[|s| - 1];
      if !IsSpace(c) then ReplaceRuns(init) + [c]
      else if |init| > 0 && IsSpace(init[|init| - 1]) then ReplaceRuns(init)
      else ReplaceRuns(init) + [' ']
  }

  /** Second substitution, `re.sub(r'\s+', ' ', s)`: it agrees with the
      run-by-run reading above and keeps every other character; the result
      is single spaced; a text that already is, is left unchanged; no letter
      gap is created and no uppercase letter introduced. */
  function CollapseSpaces(s: string): (r: string)
    ensures |r| <= |s|
    ensures r == ReplaceRuns(s)
    ensures Unspaced(r) == Unspaced(s)
    ensures SingleSpaced(r)
    ensures SingleSpaced(s) ==> r == s
    ensures NoSqueezedGap(s) ==> NoSqueezedGap(r)
    ensures NoUpper(s) ==> NoUpper(r)
  {
    CollapseSingleSpaced(s);
    CollapseFixpoint(s);
    CollapseKeepsNoGap(s);
    CollapseKeepsNoUpper(s);
    CollapseRuns(s);
    CollapseKeepsContent(s);
    Blank(Select(s, RepeatMask(s)))
  }

  /** `normalize_text` */
  function NormalizeText(s: string): (r: string)
    ensures |r| <= |s|
    ensures Normalized(r)
    ensures Unspaced(r) == Lower(Unspaced(s))
  {
    var c := CollapseSpaces(JoinLetters(s));
    LowerNormalizes(c);
    UnspacedLower(c);
    Lower(c)
  }

  // ---------------------------------------------------------------------
  // Properties
  // ---------------------------------------------------------------------

  /** A normalized text is a fixed point of `normalize_text`. */
  lemma NormalizedFixpoint(s: string)
    requires Normalized(s)
    ensures NormalizeText(s) == s
  {
    assert JoinLetters(s) == s;
    assert CollapseSpaces(s) == s;
  }

  /** `normalize_text` is idempotent. */
  lemma NormalizeIdempotent(s: string)
    ensures NormalizeText(NormalizeText(s)) == NormalizeText(s)
  {
    NormalizedFixpoint(NormalizeText(s));
  }

  /** Letters separated by single whitespace characters, as a PDF extractor
      renders a word: w[0] gaps[0] w[1] gaps[1] ... w[n-1]. */
  function Letterspaced(w: string, gaps: string): (s: string)
    requires |w| >= 1 && |gaps| == |w| - 1
    ensures |s| == 2 * |w| - 1
  {
    seq(2 * |w| - 1, i requires 0 <= i < 2 * |w| - 1 => if i % 2 == 0 then w[i / 2] else gaps[i / 2])
  }

  /** A letter-spaced word is joined back and lowercased: "P y t h o n"
      normalizes to "python". */
  lemma LetterspacedJoins(w: string, gaps: string)
    requires |w| >= 1 && |gaps| == |w| - 1
    requires forall k :: 0 <= k < |w| ==> IsLetter(w[k])
    requires forall k :: 0 <= k < |gaps| ==> IsSpace(gaps[k])
    ensures NormalizeText(Letterspaced(w, gaps)) == Lower(w)
  {
    var s := Letterspaced(w, gaps);
    assert JoinLetters(s) == w by {
      LetterspacedGaps(w, gaps);
      SelectEven(s, GapMask(s), w);
    }
    assert SingleSpaced(w);
  }

  /** In a letter-spaced word every gap is squeezed and every letter kept. */
  lemma LetterspacedGaps(w: string, gaps: string)
    requires |w| >= 1 && |gaps| == |w| - 1
    requires forall k :: 0 <= k < |w| ==> IsLetter(w[k])
    requires forall k :: 0 <= k < |gaps| ==> IsSpace(gaps[k])
    ensures var s := Letterspaced(w, gaps);
            forall i :: 0 <= i < |s| ==> GapMask(s)[i] == (i % 2 == 0)
  {
    var s := Letterspaced(w, gaps);
    forall i | 0 <= i < |s|
      ensures GapMask(s)[i] == (i % 2 == 0)
    {
      LetterspacedGapAt(w, gaps, i);
    }
  }

  /** Position `i` of a letter-spaced word is squeezed exactly when it holds
      a gap, that is, when it is odd. */
  lemma LetterspacedGapAt(w: string, gaps: string, i: nat)
    requires |w| >= 1 && |gaps| == |w| - 1
    requires forall k :: 0 <= k < |w| ==> IsLetter(w[k])
    requires forall k :: 0 <= k < |gaps| ==> IsSpace(gaps[k])
    requires i < 2 * |w| - 1
    ensures Squeezed(Letterspaced(w, gaps), i) == (i % 2 == 1)
  {
    var s := Letterspaced(w, gaps);
    LetterspacedClass(w, gaps, i);
    if i % 2 == 1 {
      LetterspacedClass(w, gaps, i - 1);
      LetterspacedClass(w, gaps, i + 1);
      if i >= 2 {
        LetterspacedClass(w, gaps, i - 2);
      }
      if i + 2 < |s| {
        LetterspacedClass(w, gaps, i + 2);
      }
      GapBetweenLetters(s, i);
    }
  }

  /** A single whitespace character between a one-letter word start and a
      one-letter word end is squeezed. */
  lemma GapBetweenLetters(s: string, i: nat)
    requires 0 < i && i + 1 < |s|
    requires IsSpace(s[i]) && IsLetter(s[i - 1]) && IsLetter(s[i + 1])
    requires i < 2 || !IsWord(s[i - 2])
    requires i + 2 >= |s| || !IsWord(s[i + 2])
    ensures Squeezed(s, i)
  {
    RunStartAfter(s, i - 1, i);
    RunEndBefore(s, i, i + 1);
  }

  /** Even positions of a letter-spaced word hold letters, odd ones
      whitespace. */
  lemma LetterspacedClass(w: string, gaps: string, i: nat)
    requires |w| >= 1 && |gaps| == |w| - 1
    requires forall k :: 0 <= k < |w| ==> IsLetter(w[k])
    requires forall k :: 0 <= k < |gaps| ==> IsSpace(gaps[k])
    requires i < 2 * |w| - 1
    ensures var s := Letterspaced(w, gaps);
            && IsLetter(s[i]) == (i % 2 == 0)
            && IsWord(s[i]) == (i % 2 == 0)
            && IsSpace(s[i]) == (i % 2 == 1)
  {
    var s := Letterspaced(w, gaps);
    if i % 2 == 0 {
      assert s[i] == w[i / 2];
    } else {
      assert s[i] == gaps[i / 2];
    }
  }

  /** Keeping the even positions of w[0] _ w[1] _ ... w[n-1] gives back w. */
  lemma SelectEven(s: string, m: seq<bool>, w: string)
    requires |s| == |m| == 2 * |w| - 1
    requires forall i :: 0 <= i < |m| ==> m[i] == (i % 2 == 0)
    requires forall k :: 0 <= k < |w| ==> s[2 * k] == w[k]
    ensures Select(s, m) == w
  {
    var joined := Select(s, m);
    AlternateRank(m, |s|);
    forall j | 0 <= j < |w|
      ensures joined[j] == w[j]
    {
      AlternateRank(m, 2 * j);
      PositionOfKept(m, |s|, 2 * j);
    }
  }

  lemma {:induction false} AlternateRank(m: seq<bool>, n: nat)
    requires n <= |m|
    requires forall i :: 0 <= i < |m| ==> m[i] == (i % 2 == 0)
    ensures Rank(m, n) == (n + 1) / 2
  {
    if n > 0 {
      AlternateRank(m, n - 1);
    }
  }

  lemma PythonExample()
    ensures NormalizeText("P y t h o n") == "python"
  {
    var w, gaps := "Python", "     ";
    var s := Letterspaced(w, gaps);
    assert s == "P y t h o n" by {
      forall i | 0 <= i < 11 ensures s[i] == "P y t h o n"[i] {
        if i % 2 == 0 { assert s[i] == w[i / 2]; } else { assert s[i] == ' '; }
      }
    }
    LetterspacedJoins(w, gaps);
    LowerPython();
  }

  lemma LowerPython()
    ensures Lower("Python") == "python"
  {
    var l := Lower("Python");
    assert LowerChar('P') == 'p';
    assert l[0] == 'p';
  }

  // ---------------------------------------------------------------------
  // Lemmas behind the contracts
  // ---------------------------------------------------------------------

  /** Deleting only whitespace cannot open a new squeezable gap: a gap that
      is squeezable after the deletion was squeezable before it. */
  lemma SqueezedReflects(z: string, keep: seq<bool>, j: nat)
    requires |keep| == |z|
    requires forall i :: 0 <= i < |z| && !keep[i] ==> IsSpace(z[i])
    requires j < |Select(z, keep)|
    ensures Squeezed(Select(z, keep), j) ==> Squeezed(z, Positions(keep, |z|)[j])
  {
    var o := Select(z, keep);
    var P := Positions(keep, |z|);
    if Squeezed(o, j) {
      var p, q := RunStart(o, j), RunEnd(o, j);
      var a, b, c := P[p - 1], P[q], P[j];
      assert a < c < b;
      SameRunAfterDeletion(z, keep, p - 1, j, q);
      OpensWordReflected(z, keep, p - 1);
      ClosesWordReflected(z, keep, q);
    }
  }

  /** The whitespace run around a kept character, bounded by kept
      non-whitespace characters, is bounded by the same characters before
      the deletion. */
  lemma SameRunAfterDeletion(z: string, keep: seq<bool>, lo: nat, j: nat, hi: nat)
    requires |keep| == |z|
    requires forall i :: 0 <= i < |z| && !keep[i] ==> IsSpace(z[i])
    requires lo < j < hi < |Select(z, keep)|
    requires !IsSpace(Select(z, keep)[lo]) && !IsSpace(Select(z, keep)[hi])
    requires forall r :: lo < r < hi ==> IsSpace(Select(z, keep)[r])
    ensures var P := Positions(keep, |z|);
            RunStart(z, P[j]) == P[lo] + 1 && RunEnd(z, P[j]) == P[hi]
  {
    var P := Positions(keep, |z|);
    SpacesBetweenKept(z, keep, lo, hi);
    RunStartAfter(z, P[lo], P[j]);
    RunEndBefore(z, P[j], P[hi]);
  }

  /** A letter that starts a word after the deletion started one before. */
  lemma OpensWordReflected(z: string, keep: seq<bool>, k: nat)
    requires |keep| == |z|
    requires forall i :: 0 <= i < |z| && !keep[i] ==> IsSpace(z[i])
    requires k < |Select(z, keep)|
    ensures OpensWord(Select(z, keep), k) ==> OpensWord(z, Positions(keep, |z|)[k])
  {
    var o := Select(z, keep);
    var a := Positions(keep, |z|)[k];
    if OpensWord(o, k) && 0 < a && keep[a - 1] {
      KeptPredecessor(keep, k);
      assert o[k - 1] == z[a - 1];
    }
  }

  /** A letter that ends a word after the deletion ended one before. */
  lemma ClosesWordReflected(z: string, keep: seq<bool>, k: nat)
    requires |keep| == |z|
    requires forall i :: 0 <= i < |z| && !keep[i] ==> IsSpace(z[i])
    requires k < |Select(z, keep)|
    ensures ClosesWord(Select(z, keep), k) ==> ClosesWord(z, Positions(keep, |z|)[k])
  {
    var o := Select(z, keep);
    var b := Positions(keep, |z|)[k];
    if ClosesWord(o, k) && b + 1 < |z| && keep[b + 1] {
      KeptSuccessor(keep, k);
      assert o[k + 1] == z[b + 1];
    }
  }

  /** If only whitespace is deleted and the kept characters between two kept
      ones are all whitespace, so is everything between them originally. */
  lemma SpacesBetweenKept(z: string, keep: seq<bool>, lo: nat, hi: nat)
    requires |keep| == |z|
    requires forall i :: 0 <= i < |z| && !keep[i] ==> IsSpace(z[i])
    requires lo < hi < |Select(z, keep)|
    requires forall r :: lo < r < hi ==> IsSpace(Select(z, keep)[r])
    ensures forall i :: Positions(keep, |z|)[lo] < i < Positions(keep, |z|)[hi] ==> IsSpace(z[i])
  {
    var o := Select(z, keep);
    var P := Positions(keep, |z|);
    forall i | P[lo] < i < P[hi]
      ensures IsSpace(z[i])
    {
      if keep[i] {
        KeptBetween(keep, lo, hi, i);
        assert o[Rank(keep, i)] == z[i];
      }
    }
  }

  lemma CollapseSingleSpaced(s: string)
    ensures SingleSpaced(Blank(Select(s, RepeatMask(s))))
  {
    FirstOfRunsNotAdjacent(s);
  }

  lemma CollapseFixpoint(s: string)
    ensures SingleSpaced(s) ==> Blank(Select(s, RepeatMask(s))) == s
  {
    if SingleSpaced(s) {
      SelectAll(s, RepeatMask(s));
    }
  }

  lemma CollapseKeepsNoGap(s: string)
    ensures NoSqueezedGap(s) ==> NoSqueezedGap(Blank(Select(s, RepeatMask(s))))
  {
    var kept := Select(s, RepeatMask(s));
    NoSqueezedGapAfterDeletion(s, RepeatMask(s));
    SameShapeSqueezed(kept, Blank(kept));
  }

  lemma CollapseKeepsNoUpper(s: string)
    ensures NoUpper(s) ==> NoUpper(Blank(Select(s, RepeatMask(s))))
  {
    var kept := Select(s, RepeatMask(s));
    var P := Positions(RepeatMask(s), |s|);
    assert forall j :: 0 <= j < |kept| ==> kept[j] == s[P[j]];
  }

  /** The deletions of the first substitution close every gap, and deleting
      only whitespace from a text without gaps opens none. */
  /** Lower-casing a single-spaced text without letter gaps normalizes it. */
  lemma {:induction false} LowerNormalizes(c: string)
    requires SingleSpaced(c) && NoSqueezedGap(c)
    ensures Normalized(Lower(c))
  {
    SameShapeSqueezed(c, Lower(c));
  }

  /** Deleting only whitespace keeps every other character, in order. */
  lemma {:induction false} UnspacedSelectPrefix(z: string, keep: seq<bool>, n: nat)
    requires |keep| == |z| && n <= |z|
    requires forall i :: 0 <= i < |z| && !keep[i] ==> IsSpace(z[i])
    ensures Unspaced(SelectPrefix(z, keep, n)) == Unspaced(z[..n])
  {
    if n > 0 {
      UnspacedSelectPrefix(z, keep, n - 1);
      var piece := if keep[n - 1] then [z[n - 1]] else [];
      assert SelectPrefix(z, keep, n) == SelectPrefix(z, keep, n - 1) + piece;
      SliceSnoc(z, n);
      UnspacedStep(SelectPrefix(z, keep, n - 1), piece, z[..n - 1], z[n - 1]);
    }
  }

  /** One step of `UnspacedSelectPrefix`: the next character is either kept
      or is whitespace. */
  lemma {:induction false} UnspacedStep(a: string, piece: string, prefix: string, c: char)
    requires Unspaced(a) == Unspaced(prefix)
    requires piece == [c] || (piece == [] && IsSpace(c))
    ensures Unspaced(a + piece) == Unspaced(prefix + [c])
  {
    UnspacedAppend(a, piece);
    UnspacedAppend(prefix, [c]);
    assert [c][..0] == [];
    assert piece == [] ==> a + piece == a;
  }

  lemma {:induction false} UnspacedSelect(z: string, keep: seq<bool>)
    requires |keep| == |z|
    requires forall i :: 0 <= i < |z| && !keep[i] ==> IsSpace(z[i])
    ensures Unspaced(Select(z, keep)) == Unspaced(z)
  {
    UnspacedSelectPrefix(z, keep, |z|);
    assert z[..|z|] == z;
  }

  lemma {:induction false} UnspacedBlank(z: string)
    ensures Unspaced(Blank(z)) == Unspaced(z)
  {
    var b := Blank(z);
    assert forall i :: 0 <= i < |z| && !IsSpace(z[i]) ==> b[i] == z[i];
    UnspacedPointwise(b, z);
  }

  lemma {:induction false} CollapseKeepsContent(s: string)
    ensures Unspaced(Blank(Select(s, RepeatMask(s)))) == Unspaced(s)
  {
    var m := RepeatMask(s);
    assert forall i :: 0 <= i < |s| && !m[i] ==> IsSpace(s[i]);
    UnspacedSelect(s, m);
    UnspacedBlank(Select(s, m));
  }

  lemma {:induction false} BlankAppend(a: string, b: string)
    ensures Blank(a + b) == Blank(a) + Blank(b)
  {
    var l, r := Blank(a + b), Blank(a) + Blank(b);
    assert |l| == |r|;
    forall i | 0 <= i < |l| ensures l[i] == r[i] {
      if i < |a| { assert (a + b)[i] == a[i]; } else { assert (a + b)[i] == b[i - |a|]; }
    }
  }

  /** The mask-and-blank formulation agrees with `ReplaceRuns` on every prefix. */
  lemma {:induction false} CollapseRunsPrefix(s: string, n: nat)
    requires n <= |s|
    ensures Blank(SelectPrefix(s, RepeatMask(s), n)) == ReplaceRuns(s[..n])
  {
    if n > 0 {
      CollapseRunsPrefix(s, n - 1);
      var m := RepeatMask(s);
      var piece := if m[n - 1] then [s[n - 1]] else [];
      assert SelectPrefix(s, m, n) == SelectPrefix(s, m, n - 1) + piece;
      SliceSnoc(s, n);
      RunsStep(SelectPrefix(s, m, n - 1), s[..n - 1], s[n - 1]);
    }
  }

  /** One step of `CollapseRunsPrefix`. */
  lemma {:induction false} RunsStep(a: string, prefix: string, c: char)
    requires Blank(a) == ReplaceRuns(prefix)
    ensures var keepIt := !(|prefix| > 0 && IsSpace(prefix[|prefix| - 1]) && IsSpace(c));
      Blank(a + (if keepIt then [c] else [])) == ReplaceRuns(prefix + [c])
  {
    var t := prefix + [c];
    assert t[..|t| - 1] == prefix && t[|t| - 1] == c;
    BlankAppend(a, [c]);
    assert a + [] == a;
  }

  lemma {:induction false} CollapseRuns(s: string)
    ensures Blank(Select(s, RepeatMask(s))) == ReplaceRuns(s)
  {
    CollapseRunsPrefix(s, |s|);
    assert s[..|s|] == s;
  }

  lemma NoSqueezedGapAfterDeletion(z: string, keep: seq<bool>)
    requires |keep| == |z|
    requires forall i :: 0 <= i < |z| && !keep[i] ==> IsSpace(z[i])
    ensures keep == GapMask(z) || NoSqueezedGap(z) ==> NoSqueezedGap(Select(z, keep))
  {
    var o := Select(z, keep);
    if keep == GapMask(z) || NoSqueezedGap(z) {
      forall j | 0 <= j < |o|
        ensures !Squeezed(o, j)
      {
        SqueezedReflects(z, keep, j);
      }
    }
  }

  /** Keeping only the first character of each whitespace run leaves no
      two whitespace characters next to each other. */
  lemma FirstOfRunsNotAdjacent(s: string)
    ensures var o := Select(s, RepeatMask(s));
            forall j :: 0 < j < |o| ==> !(IsSpace(o[j - 1]) && IsSpace(o[j]))
  {
    var o := Select(s, RepeatMask(s));
    forall j | 0 < j < |o| && IsSpace(o[j])
      ensures !IsSpace(o[j - 1])
    {
      FirstOfRunAt(s, j);
    }
  }

  /** A kept whitespace character is the first of its run, so the character
      kept just before it is the one just before it in `s`, which is not
      whitespace. */
  lemma FirstOfRunAt(s: string, j: nat)
    requires 0 < j < |Select(s, RepeatMask(s))|
    requires IsSpace(Select(s, RepeatMask(s))[j])
    ensures !IsSpace(Select(s, RepeatMask(s))[j - 1])
  {
    var m := RepeatMask(s);
    var o := Select(s, m);
    var P := Positions(m, |s|);
    var c := P[j];
    assert P[j - 1] < c && m[c] && o[j] == s[c];
    assert !IsSpace(s[c - 1]);
    assert m[c - 1];
    PositionOfKept(m, |s|, c - 1);
    RankOfPosition(m, |s|, j);
    assert Rank(m, c) == Rank(m, c - 1) + 1;
    assert o[j - 1] == s[c - 1];
  }

  /** Same classes position by position. */
  predicate SameShape(a: string, b: string) {
    && |a| == |b|
    && forall i :: 0 <= i < |a| ==> IsSpace(a[i]) == IsSpace(b[i]) && IsWord(a[i]) == IsWord(b[i]) && IsLetter(a[i]) == IsLetter(b[i])
  }

  lemma {:induction false} RunStartSameShape(a: string, b: string, i: nat)
    requires SameShape(a, b) && i <= |a|
    ensures RunStart(a, i) == RunStart(b, i)
  {
    if i > 0 {
      RunStartSameShape(a, b, i - 1);
    }
  }

  lemma {:induction false} RunEndSameShape(a: string, b: string, i: nat)
    requires SameShape(a, b) && i <= |a|
    ensures RunEnd(a, i) == RunEnd(b, i)
    decreases |a| - i
  {
    if i < |a| {
      RunEndSameShape(a, b, i + 1);
    }
  }

  /** Squeezability depends only on character classes, so lowercasing and
      blanking whitespace preserve it. */
  lemma SameShapeSqueezed(a: string, b: string)
    requires SameShape(a, b)
    ensures forall i :: 0 <= i < |a| ==> Squeezed(a, i) == Squeezed(b, i)
  {
    forall i | 0 <= i < |a|
      ensures Squeezed(a, i) == Squeezed(b, i)
    {
      RunStartSameShape(a, b, i);
      RunEndSameShape(a, b, i);
    }
  }
}
