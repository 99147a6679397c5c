/**
 * The three string operations the prompt analysis relies on, stated the way
 * Python defines them for `str`:
 *   - `c.isspace()`   -> IsSpace
 *   - `s.lower()`     -> Lower (restricted to ASCII letters)
 *   - `pat in s`      -> Contains (substring containment)
 *   - `s.split()`     -> Split (maximal runs of non-whitespace characters)
 */
module Text {

  /** Python's `str.isspace()` for one character: the characters that
      `str.split()` with no separator treats as separators. */
  predicate IsSpace(c: char)
    ensures IsSpace(c) ==> !('a' <= c <= 'z' || 'A' <= c <= 'Z' || '0' <= c <= '9')
  {
    || ('\t' <= c <= '\r')
    || ('\U{1C}' <= c <= '\U{1F}')
    || c == ' '
    || c == '\U{85}'
    || c == '\U{A0}'
    || c == '\U{1680}'
    || ('\U{2000}' <= c <= '\U{200A}')
    || c == '\U{2028}'
    || c == '\U{2029}'
    || c == '\U{202F}'
    || c == '\U{205F}'
    || c == '\U{3000}'
  }

  predicate IsUpper(c: char) {
    'A' <= c <= 'Z'
  }

  /** `str.lower()` on one character, over ASCII. */
  function LowerChar(c: char): (l: char)
    ensures !IsUpper(l)
    ensures IsUpper(c) ==> l as int == c as int + 32
    ensures !IsUpper(c) ==> l == c
  {
    if IsUpper(c) then (c as int + 32) as char else c
  }

  /** `str.lower()`, character by character. */
  function Lower(s: string): (r: string)
    ensures |r| == |s|
  {
    seq(|s|, i requires 0 <= i < |s| => LowerChar(s[i]))
  }

  /** What Lower does: every ASCII capital becomes its small letter, no
      capital is left, and nothing else changes. */
  lemma LowerSpec(s: string)
    ensures forall i :: 0 <= i < |s| ==> !IsUpper(Lower(s)[i])
    ensures forall i :: 0 <= i < |s| ==> (Lower(s)[i] == s[i] <==> !IsUpper(s[i]))
    ensures forall i :: 0 <= i < |s| && IsUpper(s[i]) ==> Lower(s)[i] as int == s[i] as int + 32
  {
  }

  lemma LowerIdempotent(s: string)
    ensures Lower(Lower(s)) == Lower(s)
  {
  }

  /** Lowering never turns a separator into a word character or back. */
  lemma LowerKeepsSpace(c: char)
    ensures IsSpace(LowerChar(c)) <==> IsSpace(c)
  {
  }

  lemma LowerSlice(s: string, i: nat, j: nat)
    requires i <= j <= |s|
    ensures Lower(s)[i..j] == Lower(s[i..j])
    ensures Lower(s[i..]) == Lower(s)[i..]
  {
  }

  /** `pat` occurs in `s` starting at index `i`. */
  predicate OccursAt(s: string, pat: string, i: int) {
    0 <= i && i + |pat| <= |s| && s[i..i + |pat|] == pat
  }

  /** Python's `pat in s` for strings: is `pat` a substring of `s`? */
  predicate Contains(s: string, pat: string)
    ensures Contains(s, pat) ==> |pat| <= |s|
    ensures |pat| == 0 ==> Contains(s, pat)
    ensures OccursAt(s, pat, 0) ==> Contains(s, pat)
    decreases |s|
  {
    if |pat| > |s| then false
    else if s[..|pat|] == pat then true
    else |s| > 0 && Contains(s[1..], pat)
  }

  /** Contains agrees with the definition of a substring: some index where
      `pat` occurs. */
  lemma {:induction false} ContainsIffOccurs(s: string, pat: string)
    ensures Contains(s, pat) <==> exists i :: OccursAt(s, pat, i)
    decreases |s|
  {
    if |pat| > |s| {
    } else if s[..|pat|] == pat {
      assert OccursAt(s, pat, 0);
    } else if |s| > 0 {
      ContainsIffOccurs(s[1..], pat);
      if Contains(s[1..], pat) {
        var i :| OccursAt(s[1..], pat, i);
        assert s[1..][i..i + |pat|] == s[i + 1..i + 1 + |pat|];
        assert OccursAt(s, pat, i + 1);
      }
      if i :| OccursAt(s, pat, i) {
        assert i != 0;
        assert s[1..][i - 1..i - 1 + |pat|] == s[i..i + |pat|];
        assert OccursAt(s[1..], pat, i - 1);
      }
    } else {
      assert false;
    }
  }

  /** The `len(pat)` characters of `s` starting at `i` lower-case to `pat`. */
  predicate WindowLowersTo(s: string, pat: string, i: int) {
    0 <= i && i + |pat| <= |s| && Lower(s[i..i + |pat|]) == pat
  }

  /** `pat in s.lower()` is a case-insensitive substring test: it holds exactly
      when some window of `s` lower-cases to `pat`. */
  lemma ContainsLowerIffWindow(s: string, pat: string)
    ensures Contains(Lower(s), pat) <==> exists i :: WindowLowersTo(s, pat, i)
  {
    ContainsIffOccurs(Lower(s), pat);
    if i :| OccursAt(Lower(s), pat, i) {
      LowerSlice(s, i, i + |pat|);
      assert WindowLowersTo(s, pat, i);
    }
    if i :| WindowLowersTo(s, pat, i) {
      LowerSlice(s, i, i + |pat|);
      assert OccursAt(Lower(s), pat, i);
    }
  }

  /** The length of the longest prefix of `s` whose characters are all
      separators (`space`) or all non-separators (`!space`). */
  function LeadingRun(s: string, space: bool): (n: nat)
    ensures n <= |s|
    ensures forall i :: 0 <= i < n ==> IsSpace(s[i]) == space
    ensures n < |s| ==> IsSpace(s[n]) != space
  {
    if s != [] && IsSpace(s[0]) == space then 1 + LeadingRun(s[1..], space) else 0
  }

  /** The maximal-run property pins LeadingRun down. */
  lemma LeadingRunUnique(s: string, space: bool, m: nat)
    requires m <= |s|
    requires forall i :: 0 <= i < m ==> IsSpace(s[i]) == space
    requires m < |s| ==> IsSpace(s[m]) != space
    ensures LeadingRun(s, space) == m
  {
  }

  /** A token of `str.split()`: non-empty, without separators. */
  predicate IsWord(w: string) {
    |w| > 0 && forall i :: 0 <= i < |w| ==> !IsSpace(w[i])
  }

  predicate AllSpace(s: string) {
    forall i :: 0 <= i < |s| ==> IsSpace(s[i])
  }

  /** Python's `s.split()` with no separator: skip leading whitespace, take the
      maximal run of non-whitespace as one token, repeat; no empty tokens. */
  function Split(s: string): (words: seq<string>)
    ensures forall k :: 0 <= k < |words| ==> IsWord(words[k])
    decreases |s|
  {
    var t := s[LeadingRun(s, true)..];
    if t == [] then []
    else
      var n := LeadingRun(t, false);
      [t[..n]] + Split(t[n..])
  }

  /** The inverse direction of Split: words glued together by `sep`. */
  function Join(words: seq<string>, sep: string): string {
    if |words| == 0 then []
    else if |words| == 1 then words[0]
    else words[0] + sep + Join(words[1..], sep)
  }

  lemma {:induction false} SplitSkipsLeadingSpace(sp: string, t: string)
    requires AllSpace(sp)
    ensures Split(sp + t) == Split(t)
  {
    var s := sp + t;
    var m := LeadingRun(t, true);
    LeadingRunUnique(s, true, |sp| + m);
    assert s[|sp| + m..] == t[m..];
  }

  lemma {:induction false} SplitWord(w: string)
    requires IsWord(w)
    ensures Split(w) == [w]
  {
    LeadingRunUnique(w, true, 0);
    LeadingRunUnique(w, false, |w|);
    assert w[0..] == w;
    assert w[..|w|] == w;
    assert w[|w|..] == [];
    assert Split([]) == [];
    assert Split(w) == [w[..|w|]] + Split(w[|w|..]);
  }

  /** A word followed by a non-empty run of separators of any kind is the
      first token, whatever follows. */
  lemma SplitWordThenSpace(w: string, sp: string, t: string)
    requires IsWord(w) && |sp| > 0 && AllSpace(sp)
    ensures Split(w + sp + t) == [w] + Split(t)
  {
    var s := w + sp + t;
    assert s == w + (sp + t);
    LeadingRunUnique(s, true, 0);
    LeadingRunUnique(s, false, |w|);
    assert s[0..] == s;
    assert s[..|w|] == w;
    assert s[|w|..] == sp + t;
    SplitSkipsLeadingSpace(sp, t);
  }

  /** Trailing separators of any kind do not change the tokens. */
  lemma {:induction false} SplitSkipsTrailingSpace(s: string, sp: string)
    requires AllSpace(sp)
    ensures Split(s + sp) == Split(s)
    decreases |s|
  {
    var a := LeadingRun(s, true);
    var t := s[a..];
    if t == [] {
      assert AllSpace(s + sp);
      SplitSkipsLeadingSpace(s + sp, []);
      SplitSkipsLeadingSpace(s, []);
      assert s + sp + [] == s + sp && s + [] == s;
      assert Split([]) == [];
    } else {
      LeadingRunUnique(s + sp, true, a);
      assert (s + sp)[a..] == t + sp;
      var n := LeadingRun(t, false);
      LeadingRunUnique(t + sp, false, n);
      assert (t + sp)[..n] == t[..n];
      assert (t + sp)[n..] == t[n..] + sp;
      SplitSkipsTrailingSpace(t[n..], sp);
    }
  }

  /** Round trip: splitting words joined by a non-empty whitespace separator
      gives the words back. */
  lemma {:induction false} SplitJoin(words: seq<string>, sep: string)
    requires forall k :: 0 <= k < |words| ==> IsWord(words[k])
    requires |sep| > 0 && AllSpace(sep)
    ensures Split(Join(words, sep)) == words
    decreases |words|
  {
    if |words| == 0 {
    } else if |words| == 1 {
      SplitWord(words[0]);
    } else {
      SplitWordThenSpace(words[0], sep, Join(words[1..], sep));
      SplitJoin(words[1..], sep);
    }
  }

  /** The non-separator characters of `s`, in order. */
  function NonSpace(s: string): (r: string)
    ensures |r| <= |s|
  {
    if s == [] then []
    else (if IsSpace(s[0]) then [] else [s[0]]) + NonSpace(s[1..])
  }

  function Concat(words: seq<string>): string {
    if words == [] then [] else words[0] + Concat(words[1..])
  }

  /** Split drops exactly the separators: its tokens, concatenated, are the
      non-separator characters of `s` in their original order. */
  lemma {:induction false} SplitKeepsNonSpace(s: string)
    ensures Concat(Split(s)) == NonSpace(s)
    decreases |s|
  {
    var a := LeadingRun(s, true);
    var t := s[a..];
    SkipSpaceKeepsNonSpace(s);
    if t != [] {
      var n := LeadingRun(t, false);
      var w := t[..n];
      var rest := Split(t[n..]);
      SplitKeepsNonSpace(t[n..]);
      WordKeepsNonSpace(t);
      assert Split(s) == [w] + rest;
      assert ([w] + rest)[1..] == rest;
      assert Concat(Split(s)) == w + Concat(rest);
    } else {
      assert Split(s) == [];
    }
  }

  /** Leading separators contribute nothing to NonSpace. */
  lemma SkipSpaceKeepsNonSpace(s: string)
    ensures NonSpace(s) == NonSpace(s[LeadingRun(s, true)..])
  {
  }

  /** The leading token contributes itself to NonSpace. */
  lemma WordKeepsNonSpace(t: string)
    ensures NonSpace(t) == t[..LeadingRun(t, false)] + NonSpace(t[LeadingRun(t, false)..])
  {
  }

  /** Lowering keeps every run of separators or non-separators. */
  lemma LeadingRunLower(s: string, space: bool)
    ensures LeadingRun(Lower(s), space) == LeadingRun(s, space)
  {
    forall i | 0 <= i < |s| ensures IsSpace(Lower(s)[i]) == IsSpace(s[i]) {
      LowerKeepsSpace(s[i]);
    }
    LeadingRunUnique(Lower(s), space, LeadingRun(s, space));
  }

  /** Each token of `words`, lowered. */
  function LowerAll(words: seq<string>): (r: seq<string>)
    ensures |r| == |words|
  {
    if words == [] then [] else [Lower(words[0])] + LowerAll(words[1..])
  }

  /** Lowering commutes with dropping leading separators. */
  lemma LowerSkipsSpace(s: string)
    ensures Lower(s)[LeadingRun(Lower(s), true)..] == Lower(s[LeadingRun(s, true)..])
  {
    LeadingRunLower(s, true);
    LowerSlice(s, LeadingRun(s, true), |s|);
  }

  /** Lowering commutes with cutting off the leading token. */
  lemma LowerCutsWord(t: string)
    ensures Lower(t)[..LeadingRun(Lower(t), false)] == Lower(t[..LeadingRun(t, false)])
    ensures Lower(t)[LeadingRun(Lower(t), false)..] == Lower(t[LeadingRun(t, false)..])
  {
    var n := LeadingRun(t, false);
    LeadingRunLower(t, false);
    LowerSlice(t, 0, n);
    LowerSlice(t, n, |t|);
    assert t[0..n] == t[..n];
  }

  /** Lowering a string does not move any token boundary: `s.lower().split()`
      gives the tokens of `s.split()`, each lowered. */
  lemma {:induction false} SplitLower(s: string)
    ensures Split(Lower(s)) == LowerAll(Split(s))
    decreases |s|
  {
    var t := s[LeadingRun(s, true)..];
    LowerSkipsSpace(s);
    if t == [] {
      assert Split(s) == [];
      assert Lower(t) == [];
    } else {
      var n := LeadingRun(t, false);
      LowerCutsWord(t);
      SplitLower(t[n..]);
      var words := Split(s);
      assert words == [t[..n]] + Split(t[n..]);
      assert words[0] == t[..n] && words[1..] == Split(t[n..]);
      assert Split(Lower(s)) == [Lower(t)[..n]] + Split(Lower(t)[n..]);
    }
  }
}
