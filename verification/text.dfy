/** Character classes and string operations shared by the analyzers.

    Characters are classified the way Python's `re` and `str` methods classify
    ASCII characters; every other character is treated as an ordinary symbol
    (not whitespace, not a word character, unchanged by lowercasing). */
module Text {

  /** Whitespace for `\s`, `str.isspace()` and `str.strip()`: space, tab,
      line feed, vertical tab, form feed, carriage return (9..13) and the
      four information separators (28..31). */
  predicate IsSpace(c: char) {
    c == ' ' || (9 <= c as int <= 13) || (28 <= c as int <= 31)
  }

  predicate IsUpper(c: char) {
    'A' <= c <= 'Z'
  }

  /** `[A-Za-z]` */
  predicate IsLetter(c: char) {
    'A' <= c <= 'Z' || 'a' <= c <= 'z'
  }

  predicate IsDigit(c: char) {
    '0' <= c <= '9'
  }

  /** A word character for `\w` and `\b`: letter, digit or underscore. */
  predicate IsWord(c: char) {
    IsLetter(c) || IsDigit(c) || c == '_'
  }

  /** `str.lower()` on one character. */
  function LowerChar(c: char): (r: char)
    ensures !IsUpper(r)
    ensures IsUpper(c) ==> IsLetter(r) && r != c && r as int - 'a' as int == c as int - 'A' as int
    ensures !IsUpper(c) ==> r == c
    ensures IsSpace(r) == IsSpace(c) && IsLetter(r) == IsLetter(c) && IsWord(r) == IsWord(c)
  {
    if IsUpper(c) then (c as int + 32) as char else c
  }

  predicate NoUpper(s: string) {
    forall i :: 0 <= i < |s| ==> !IsUpper(s[i])
  }

  /** `str.lower()` */
  function Lower(s: string): (r: string)
    ensures |r| == |s| && NoUpper(r)
    ensures forall i :: 0 <= i < |s| ==> IsSpace(r[i]) == IsSpace(s[i]) && IsWord(r[i]) == IsWord(s[i]) && IsLetter(r[i]) == IsLetter(s[i])
    ensures forall i :: 0 <= i < |s| && !IsUpper(s[i]) ==> r[i] == s[i]
    ensures forall i :: 0 <= i < |s| && IsUpper(s[i]) ==> r[i] as int - 'a' as int == s[i] as int - 'A' as int
    ensures NoUpper(s) ==> r == s
  {
    seq(|s|, i requires 0 <= i < |s| => LowerChar(s[i]))
  }

  lemma LowerAppend(a: string, b: string)
    ensures Lower(a + b) == Lower(a) + Lower(b)
  {
    var l, r := Lower(a + b), Lower(a) + Lower(b);
    assert |l| == |r|;
    forall i | 0 <= i < |l| ensures l[i] == r[i] {
      if i < |a| { assert (a + b)[i] == a[i]; } else { assert (a + b)[i] == b[i - |a|]; }
    }
  }

  // ---------------------------------------------------------------------
  // Text with its whitespace deleted
  // ---------------------------------------------------------------------

  /** The non-whitespace characters of `s`, in order. */
  function Unspaced(s: string): string
  {
    if |s| == 0 then []
    else Unspaced(s[..|s| - 1]) + (if IsSpace(s[|s| - 1]) then [] else [s[|s| - 1]])
  }

  /** A non-empty prefix is the shorter prefix followed by one element. */
  lemma SliceSnoc<T>(z: seq<T>, n: nat)
    requires 0 < n <= |z|
    ensures z[..n] == z[..n - 1] + [z[n - 1]]
  {
  }

  lemma {:induction false} UnspacedAppend(a: string, b: string)
    ensures Unspaced(a + b) == Unspaced(a) + Unspaced(b)
    decreases |b|
  {
    if |b| > 0 {
      var b' := b[..|b| - 1];
      assert (a + b)[..|a + b| - 1] == a + b';
      UnspacedAppend(a, b');
    } else {
      assert a + b == a;
    }
  }

  /** Two texts that agree on which positions are whitespace and on every
      other character have the same non-whitespace content. */
  lemma {:induction false} UnspacedPointwise(a: string, b: string)
    requires |a| == |b|
    requires forall i :: 0 <= i < |a| ==> IsSpace(a[i]) == IsSpace(b[i])
    requires forall i :: 0 <= i < |a| && !IsSpace(a[i]) ==> a[i] == b[i]
    ensures Unspaced(a) == Unspaced(b)
    decreases |a|
  {
    if |a| > 0 {
      UnspacedPointwise(a[..|a| - 1], b[..|b| - 1]);
    }
  }

  /** Lower-casing commutes with deleting whitespace. */
  lemma {:induction false} UnspacedLower(s: string)
    ensures Unspaced(Lower(s)) == Lower(Unspaced(s))
    decreases |s|
  {
    if |s| > 0 {
      var init, c := s[..|s| - 1], s[|s| - 1];
      UnspacedLower(init);
      UnspacedLowerStep(init, c);
      assert s == init + [c];
    }
  }

  lemma {:induction false} UnspacedLowerStep(init: string, c: char)
    requires Unspaced(Lower(init)) == Lower(Unspaced(init))
    ensures Unspaced(Lower(init + [c])) == Lower(Unspaced(init + [c]))
  {
    var t := init + [c];
    LowerAppend(init, [c]);
    var l := Lower(t);
    assert l[..|l| - 1] == Lower(init) && l[|l| - 1] == LowerChar(c);
    assert t[..|t| - 1] == init && t[|t| - 1] == c;
    var piece := if IsSpace(c) then [] else [c];
    LowerAppend(Unspaced(init), piece);
    assert Lower(piece) == if IsSpace(c) then [] else [LowerChar(c)];
  }

  // ---------------------------------------------------------------------
  // str.strip()
  // ---------------------------------------------------------------------

  /** Neither the first nor the last character is whitespace. */
  predicate Trimmed(s: string) {
    |s| == 0 || (!IsSpace(s[0]) && !IsSpace(s[|s| - 1]))
  }

  /** The number of whitespace characters `s` starts with. */
  function LeadingSpaces(s: string): (n: nat)
    ensures n <= |s|
    ensures forall i :: 0 <= i < n ==> IsSpace(s[i])
    ensures n == |s| || !IsSpace(s[n])
  {
    if |s| > 0 && IsSpace(s[0]) then 1 + LeadingSpaces(s[1..]) else 0
  }

  /** Where the whitespace `s` ends with begins. */
  function TrailingStart(s: string): (n: nat)
    ensures n <= |s|
    ensures forall i :: n <= i < |s| ==> IsSpace(s[i])
    ensures n == 0 || !IsSpace(s[n - 1])
  {
    if |s| > 0 && IsSpace(s[|s| - 1]) then TrailingStart(s[..|s| - 1]) else |s|
  }

  /** `str.lstrip()` */
  function TrimStart(s: string): (r: string)
    ensures |r| <= |s| && r == s[|s| - |r|..]
    ensures forall i :: 0 <= i < |s| - |r| ==> IsSpace(s[i])
    ensures |r| == 0 || !IsSpace(r[0])
  {
    s[LeadingSpaces(s)..]
  }

  /** `str.rstrip()` */
  function TrimEnd(s: string): (r: string)
    ensures |r| <= |s| && r == s[..|r|]
    ensures forall i :: |r| <= i < |s| ==> IsSpace(s[i])
    ensures |r| == 0 || !IsSpace(r[|r| - 1])
  {
    s[..TrailingStart(s)]
  }

  /** `str.strip()`: the result is the slice of `s` left after removing the
      whitespace at both ends, and it is already stripped. */
  function Strip(s: string): (r: string)
    ensures Trimmed(r) && |r| <= |s|
    ensures Trimmed(s) ==> r == s
  {
    TrimEnd(TrimStart(s))
  }

  /** What `strip` keeps is a slice of its argument with only whitespace
      on either side of it. */
  lemma {:induction false} StripSlice(s: string)
    ensures SliceBetweenSpaces(s, Strip(s), |s| - |TrimStart(s)|)
  {
    var t := TrimStart(s);
    var r := TrimEnd(t);
    assert Strip(s) == r;
    SliceOfSlice(s, t, r);
  }

  /** A prefix `r` of a suffix `t` of `s`, where only whitespace was cut
      off at either end, is a slice of `s` between whitespace. */
  lemma SliceOfSlice(s: string, t: string, r: string)
    requires |t| <= |s| && t == s[|s| - |t|..]
    requires forall i :: 0 <= i < |s| - |t| ==> IsSpace(s[i])
    requires |r| <= |t| && r == t[..|r|]
    requires forall i :: |r| <= i < |t| ==> IsSpace(t[i])
    ensures SliceBetweenSpaces(s, r, |s| - |t|)
  {
    var a := |s| - |t|;
    forall k | 0 <= k < |r| ensures r[k] == s[a + k] {
      assert r[k] == t[k];
    }
    assert r == s[a..a + |r|];
    forall i | a + |r| <= i < |s| ensures IsSpace(s[i]) {
      assert s[i] == t[i - a];
    }
  }

  /** `lstrip` removes exactly a whitespace prefix in front of a text that
      does not start with whitespace. */
  lemma TrimStartPrefix(pre: string, s: string)
    requires forall i :: 0 <= i < |pre| ==> IsSpace(pre[i])
    requires |s| == 0 || !IsSpace(s[0])
    ensures TrimStart(pre + s) == s
  {
    LeadingSpacesPrefix(pre, s);
  }

  lemma {:induction false} LeadingSpacesPrefix(pre: string, s: string)
    requires forall i :: 0 <= i < |pre| ==> IsSpace(pre[i])
    requires |s| == 0 || !IsSpace(s[0])
    ensures LeadingSpaces(pre + s) == |pre|
  {
    if |pre| == 0 {
      assert pre + s == s;
    } else {
      assert (pre + s)[1..] == pre[1..] + s;
      LeadingSpacesPrefix(pre[1..], s);
    }
  }

  /** `rstrip` removes exactly a whitespace suffix behind a text that does
      not end with whitespace. */
  lemma TrimEndSuffix(s: string, post: string)
    requires forall i :: 0 <= i < |post| ==> IsSpace(post[i])
    requires |s| == 0 || !IsSpace(s[|s| - 1])
    ensures TrimEnd(s + post) == s
  {
    TrailingStartSuffix(s, post);
  }

  lemma {:induction false} TrailingStartSuffix(s: string, post: string)
    requires forall i :: 0 <= i < |post| ==> IsSpace(post[i])
    requires |s| == 0 || !IsSpace(s[|s| - 1])
    ensures TrailingStart(s + post) == |s|
  {
    if |post| == 0 {
      assert s + post == s;
    } else {
      assert (s + post)[..|s + post| - 1] == s + post[..|post| - 1];
      TrailingStartSuffix(s, post[..|post| - 1]);
    }
  }

  /** `strip` removes exactly the whitespace around a trimmed text. */
  lemma StripSurrounded(pre: string, s: string, post: string)
    requires forall i :: 0 <= i < |pre| ==> IsSpace(pre[i])
    requires forall i :: 0 <= i < |post| ==> IsSpace(post[i])
    requires |s| > 0 && Trimmed(s)
    ensures Strip(pre + s + post) == s
  {
    assert pre + s + post == pre + (s + post);
    TrimStartPrefix(pre, s + post);
    TrimEndSuffix(s, post);
  }

  /** `r` is the slice of `s` starting at `a`, and only whitespace lies
      outside it. */
  predicate SliceBetweenSpaces(s: string, r: string, a: nat) {
    && a + |r| <= |s|
    && r == s[a..a + |r|]
    && (forall i :: 0 <= i < a ==> IsSpace(s[i]))
    && (forall i :: a + |r| <= i < |s| ==> IsSpace(s[i]))
  }

  // ---------------------------------------------------------------------
  // Decimal rendering, as in f"{n}"
  // ---------------------------------------------------------------------

  function DigitChar(d: nat): (c: char)
    requires d < 10
    ensures IsDigit(c)
  {
    ('0' as int + d) as char
  }

  function DigitValue(c: char): nat
    requires IsDigit(c)
  {
    c as int - '0' as int
  }

  /** The decimal value of a string of digits, as `int(s)` reads it. */
  function DigitsValue(s: string): nat
    requires forall i :: 0 <= i < |s| ==> IsDigit(s[i])
  {
    if |s| == 0 then 0 else 10 * DigitsValue(s[..|s| - 1]) + DigitValue(s[|s| - 1])
  }

  /** `str(n)` for a natural number: the shortest decimal numeral of `n`. */
  function NatToString(n: nat): (r: string)
    ensures |r| >= 1 && forall i :: 0 <= i < |r| ==> IsDigit(r[i])
    ensures r[0] == '0' ==> r == "0"
    ensures DigitsValue(r) == n
  {
    if n < 10 then [DigitChar(n)]
    else
      var r := NatToString(n / 10) + [DigitChar(n % 10)];
      assert r[..|r| - 1] == NatToString(n / 10);
      r
  }

  // ---------------------------------------------------------------------
  // str.join and str.split
  // ---------------------------------------------------------------------

  /** `sep.join(parts)` */
  function JoinWith(parts: seq<string>, sep: string): string {
    if |parts| == 0 then ""
    else if |parts| == 1 then parts[0]
    else parts[0] + sep + JoinWith(parts[1..], sep)
  }

  /** `s.split(c)` for a one-character separator: the pieces between
      consecutive separators, which joined back with `c` give `s`. */
  function SplitOn(s: string, c: char): (r: seq<string>)
    ensures |r| >= 1
    ensures forall k :: 0 <= k < |r| ==> c !in r[k]
    ensures JoinWith(r, [c]) == s
  {
    if |s| == 0 then [""]
    else
      var rest := SplitOn(s[1..], c);
      if s[0] == c then
        assert JoinWith([""] + rest, [c]) == [c] + JoinWith(rest, [c]) by {
          assert ([""] + rest)[1..] == rest;
        }
        assert s == [c] + s[1..];
        [""] + rest
      else
        var r := [[s[0]] + rest[0]] + rest[1..];
        assert r[1..] == rest[1..];
        assert JoinWith(r, [c]) == [s[0]] + JoinWith(rest, [c]) by {
          if |rest| > 1 {
            assert rest == [rest[0]] + rest[1..];
            assert JoinWith(rest, [c]) == rest[0] + [c] + JoinWith(rest[1..], [c]);
          }
        }
        assert s == [s[0]] + s[1..];
        r
  }

  /** Pieces free of the separator are recovered from their join. */
  lemma SplitOnJoin(parts: seq<string>, c: char)
    requires |parts| >= 1
    requires forall k :: 0 <= k < |parts| ==> c !in parts[k]
    ensures SplitOn(JoinWith(parts, [c]), c) == parts
  {
    var s := JoinWith(parts, [c]);
    JoinInjective(SplitOn(s, c), parts, c);
  }

  /** Joining pieces free of the separator loses nothing: equal joins come
      from equal lists of pieces. */
  lemma {:induction false} JoinInjective(a: seq<string>, b: seq<string>, c: char)
    requires |a| >= 1 && |b| >= 1
    requires forall k :: 0 <= k < |a| ==> c !in a[k]
    requires forall k :: 0 <= k < |b| ==> c !in b[k]
    requires JoinWith(a, [c]) == JoinWith(b, [c])
    ensures a == b
    decreases |a|
  {
    var s := JoinWith(a, [c]);
    FirstSeparator(a, c);
    FirstSeparator(b, c);
    assert |a| == 1 <==> |b| == 1;
    assert |a[0]| == |b[0]|;
    assert a[0] == s[..|a[0]|] == b[0];
    if |a| > 1 {
      var n := |a[0]| + 1;
      assert JoinWith(a[1..], [c]) == s[n..] == JoinWith(b[1..], [c]);
      JoinInjective(a[1..], b[1..], c);
      assert a == [a[0]] + a[1..] && b == [b[0]] + b[1..];
    }
  }

  /** In the join, the first piece is followed by the first separator, if
      there is more than one piece, and by nothing otherwise. */
  lemma FirstSeparator(parts: seq<string>, c: char)
    requires |parts| >= 1
    requires forall k :: 0 <= k < |parts| ==> c !in parts[k]
    ensures var s := JoinWith(parts, [c]);
            && |parts[0]| <= |s|
            && s[..|parts[0]|] == parts[0]
            && (forall i :: 0 <= i < |parts[0]| ==> s[i] != c)
            && (|parts| == 1 <==> |parts[0]| == |s|)
            && (|parts| > 1 ==> s[|parts[0]|] == c)
  {
    var s := JoinWith(parts, [c]);
    if |parts| > 1 {
      assert s == parts[0] + [c] + JoinWith(parts[1..], [c]);
    }
    forall i | 0 <= i < |parts[0]| ensures s[i] != c {
      assert s[i] == parts[0][i];
    }
  }

  // ---------------------------------------------------------------------
  // Substring and whole-word search
  // ---------------------------------------------------------------------

  /** `p` occurs in `t` starting at position `i`. */
  predicate OccursAt(t: string, p: string, i: nat) {
    i + |p| <= |t| && t[i..i + |p|] == p
  }

  /** Python's `p in t`. */
  predicate Contains(t: string, p: string) {
    exists i :: 0 <= i <= |t| && OccursAt(t, p, i)
  }

  /** Scans `t` from position `i` for an occurrence of `p`. */
  function ContainsFrom(t: string, p: string, i: nat): (r: bool)
    requires i <= |t|
    ensures r <==> exists k :: i <= k <= |t| && OccursAt(t, p, k)
    decreases |t| - i
  {
    if OccursAt(t, p, i) then true
    else if i == |t| then false
    else ContainsFrom(t, p, i + 1)
  }

  /** `\b` at position `k`: exactly one of the characters around `k` is a
      word character (positions outside `t` count as non-word). */
  predicate Boundary(t: string, k: nat)
    requires k <= |t|
  {
    (k > 0 && IsWord(t[k - 1])) != (k < |t| && IsWord(t[k]))
  }

  /** The regex `\b` + p + `\b` matches `t` at position `i`. */
  predicate WordAt(t: string, p: string, i: nat) {
    OccursAt(t, p, i) && Boundary(t, i) && Boundary(t, i + |p|)
  }

  /** `re.search(r"\b" + p + r"\b", t)` succeeds. */
  predicate ContainsWord(t: string, p: string) {
    exists i :: 0 <= i <= |t| && WordAt(t, p, i)
  }

  /** Scans `t` from position `i` for a whole-word occurrence of `p`, as the
      regex engine tries each start position in turn. */
  function ContainsWordFrom(t: string, p: string, i: nat): (r: bool)
    requires i <= |t|
    ensures r <==> exists k :: i <= k <= |t| && WordAt(t, p, k)
    decreases |t| - i
  {
    if WordAt(t, p, i) then true
    else if i == |t| then false
    else ContainsWordFrom(t, p, i + 1)
  }
}
