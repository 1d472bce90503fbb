/**
 * The find engine of the editor: the pattern built from the find text and
 * the two flags, what it means for that pattern to match at a position,
 * Java's left-to-right `Matcher.find` scan, the match counter, and the
 * token test used by replace-all.
 *
 * The regex the editor compiles is `(?i)` (when case-insensitive) followed
 * by `\b` (when whole-word), the quoted find text, and `\b` again.  Quoting
 * makes every character of the find text a literal, so the pattern is
 * represented here by the literal and the two flags, and its meaning by
 * `MatchAt`.
 */
module Search {
  import opened JavaStrings
  import opened Optional

  // ---------------------------------------------------------------------
  // Word boundaries

  /** The word characters `\b` looks at: ASCII letters, digits and '_'. */
  predicate IsWordChar(c: char) {
    ('a' <= c <= 'z') || ('A' <= c <= 'Z') || ('0' <= c <= '9') || c == '_'
  }

  /** Position `i` of `t` holds a word character; outside the string never does. */
  predicate WordAt(t: string, i: int) {
    0 <= i < |t| && IsWordChar(t[i])
  }

  /** `\b` at position `i`: word-ness differs on the two sides. */
  predicate Boundary(t: string, i: int) {
    WordAt(t, i - 1) != WordAt(t, i)
  }

  /**
   * Boundaries inside a tail are those of the whole text, except at the
   * tail's first position, which counts as a boundary whenever the tail
   * starts with a word character, whatever precedes it.
   */
  lemma TailBoundary(t: string, c: nat, i: nat)
    requires c <= |t|
    ensures i > 0 ==> (Boundary(t[c..], i) <==> Boundary(t, c + i))
    ensures i == 0 ==> (Boundary(t[c..], i) <==> WordAt(t, c))
  {
  }

  // ---------------------------------------------------------------------
  // Characters under the regex's (?i) flag

  /** Without UNICODE_CASE, `(?i)` folds ASCII letters only. */
  function AsciiLower(c: char): (l: char)
    ensures l == c || ('A' <= c <= 'Z' && l as int == c as int + 32)
    ensures !('A' <= l <= 'Z')
  {
    if 'A' <= c <= 'Z' then (c as int + 32) as char else c
  }

  predicate RegexCharEq(a: char, b: char, caseSensitive: bool) {
    if caseSensitive then a == b else AsciiLower(a) == AsciiLower(b)
  }

  /**
   * The regex folding is narrower than the token folding of replace-all:
   * whatever the regex treats as equal, `equalsIgnoreCase` does too, but
   * 'É' and 'é' are equal only for the latter.
   */
  lemma RegexFoldingIsNarrower(a: char, b: char)
    ensures RegexCharEq(a, b, false) ==> CharEqualsIgnoreCase(a, b)
    ensures CharEqualsIgnoreCase('\U{C9}', '\U{E9}') && !RegexCharEq('\U{C9}', '\U{E9}', false)
  {
    if RegexCharEq(a, b, false) && a != b {
      if 'A' <= a <= 'Z' && 'A' <= b <= 'Z' {
      } else if 'A' <= a <= 'Z' {
        assert ToUpperChar(b) == a;
      } else {
        assert ToUpperChar(a) == b;
      }
    }
    assert ToUpperChar('\U{E9}') == '\U{C9}';
  }

  // ---------------------------------------------------------------------
  // The pattern and its matches

  datatype Pattern = Pattern(literal: string, wholeWord: bool, caseSensitive: bool)

  /**
   * `createRegexPattern(findText, caseSensitive, matchWholeWord)`: the
   * compiled regex matches at `i` exactly when the quoted find text occurs
   * there (up to ASCII case unless case-sensitive), between word
   * boundaries in whole-word mode.
   */
  function CreateRegexPattern(findText: string, caseSensitive: bool, matchWholeWord: bool): (p: Pattern)
    ensures forall t: string, i: int {:trigger MatchAt(p, t, i)} :: MatchAt(p, t, i) <==>
              0 <= i && i + |findText| <= |t| &&
              (forall k :: 0 <= k < |findText| ==> RegexCharEq(t[i + k], findText[k], caseSensitive)) &&
              (matchWholeWord ==> Boundary(t, i) && Boundary(t, i + |findText|))
  {
    Pattern(findText, matchWholeWord, caseSensitive)
  }

  /** The literal, character by character, starting at `i`. */
  predicate LiteralAt(p: Pattern, t: string, i: int) {
    0 <= i && i + |p.literal| <= |t| &&
    forall k :: 0 <= k < |p.literal| ==> RegexCharEq(t[i + k], p.literal[k], p.caseSensitive)
  }

  /**
   * The compiled pattern matches `t` at `i`, defined by the body: the
   * literal occurs at `i`, between word boundaries in whole-word mode (its
   * match is always `[i, i + |literal|)`).  `CreateRegexPattern` states the
   * same as an equivalence.
   */
  predicate MatchAt(p: Pattern, t: string, i: int): (b: bool)
    ensures b ==> 0 <= i && i + |p.literal| <= |t|
    ensures b && p.wholeWord ==> Boundary(t, i) && Boundary(t, i + |p.literal|)
  {
    LiteralAt(p, t, i) && (p.wholeWord ==> Boundary(t, i) && Boundary(t, i + |p.literal|))
  }

  /**
   * What a reported span holds: exactly the find text when case-sensitive,
   * the find text up to ASCII case otherwise, bounded by `\b` on both sides
   * in whole-word mode.
   */
  lemma MatchSpan(p: Pattern, t: string, i: nat)
    requires MatchAt(p, t, i)
    ensures i + |p.literal| <= |t|
    ensures p.caseSensitive ==> t[i..i + |p.literal|] == p.literal
    ensures !p.caseSensitive ==> forall k :: 0 <= k < |p.literal| ==>
              AsciiLower(t[i..i + |p.literal|][k]) == AsciiLower(p.literal[k])
    ensures p.wholeWord ==> Boundary(t, i) && Boundary(t, i + |p.literal|)
  {
    var n := |p.literal|;
    if p.caseSensitive {
      assert forall k :: 0 <= k < n ==> t[i..i + n][k] == p.literal[k] by {
        forall k | 0 <= k < n ensures t[i..i + n][k] == p.literal[k] {
          assert RegexCharEq(t[i + k], p.literal[k], true);
        }
      }
    }
  }

  /** `Matcher.find()` from `from`: the leftmost match at or after `from`. */
  function FindFrom(p: Pattern, t: string, from: nat): (r: Option<nat>)
    ensures r.Some? ==> from <= r.value <= |t| && MatchAt(p, t, r.value)
    ensures r.Some? ==> forall j :: from <= j < r.value ==> !MatchAt(p, t, j)
    ensures r.None? ==> forall j :: from <= j ==> !MatchAt(p, t, j)
    decreases |t| + 1 - from
  {
    if from > |t| then None
    else if MatchAt(p, t, from) then Some(from)
    else FindFrom(p, t, from + 1)
  }

  /** One character that differs rules a match out. */
  lemma MismatchAt(p: Pattern, t: string, i: nat, k: nat)
    requires k < |p.literal| && i + k < |t| && !RegexCharEq(t[i + k], p.literal[k], p.caseSensitive)
    ensures !MatchAt(p, t, i)
  {
  }

  /** The converse of `FindFrom`'s contract: the leftmost match at or after `from` is what it finds. */
  lemma FindFromLeftmost(p: Pattern, t: string, from: nat, i: nat)
    requires from <= i && MatchAt(p, t, i)
    requires forall j :: from <= j < i ==> !MatchAt(p, t, j)
    ensures FindFrom(p, t, from) == Some(i)
  {
  }

  /**
   * The caret-relative search: the matcher runs on `text[caret..]` alone and
   * its leftmost match is reported in whole-text offsets.
   */
  function Locate(p: Pattern, text: string, caret: nat): (span: Option<(nat, nat)>)
    requires caret <= |text|
    ensures span.Some? ==> caret <= span.value.0 <= span.value.1 <= |text|
    ensures span.Some? ==> span.value.1 - span.value.0 == |p.literal|
    ensures span.Some? ==> MatchAt(p, text[caret..], span.value.0 - caret)
    ensures span.Some? ==> forall j :: 0 <= j < span.value.0 - caret ==> !MatchAt(p, text[caret..], j)
    ensures span.None? <==> forall j :: 0 <= j ==> !MatchAt(p, text[caret..], j)
  {
    match FindFrom(p, text[caret..], 0)
    case None => None
    case Some(s) => Some((caret + s, caret + s + |p.literal|))
  }

  /**
   * Whole-word boundaries are judged on the tail: with the caret after "x",
   * "cat" is found as a whole word in "xcat" although it is not one in the
   * whole text.
   */
  lemma WholeWordJudgedOnTail()
    ensures Locate(Pattern("cat", true, true), "xcat", 1) == Some((1, 4))
    ensures !MatchAt(Pattern("cat", true, true), "xcat", 1)
  {
    var p := Pattern("cat", true, true);
    assert "xcat"[1..] == "cat";
    assert MatchAt(p, "cat", 0);
  }

  /** An empty find text is not rejected: it matches the empty string at the caret. */
  lemma EmptyFindTextMatchesAtCaret(text: string, caret: nat, caseSensitive: bool)
    requires caret <= |text|
    ensures Locate(Pattern([], false, caseSensitive), text, caret) == Some((caret, caret))
  {
    assert MatchAt(Pattern([], false, caseSensitive), text[caret..], 0);
  }

  /**
   * In whole-word mode an empty find text matches only at a word boundary
   * of the tail: possibly after the caret, possibly nowhere.
   */
  lemma EmptyFindTextWholeWord(caseSensitive: bool)
    ensures Locate(Pattern([], true, caseSensitive), " a", 0) == Some((1, 1))
    ensures Locate(Pattern([], true, caseSensitive), "a ", 1) == None
  {
    var p := Pattern([], true, caseSensitive);
    assert " a"[0..] == " a";
    assert !MatchAt(p, " a", 0) && MatchAt(p, " a", 1);
    var tail := "a "[1..];
    assert tail == " ";
    forall j | 0 <= j ensures !MatchAt(p, tail, j) {
      if j == 0 {
        assert !Boundary(tail, 0);
      } else if j == 1 {
        assert !Boundary(tail, 1);
      }
    }
  }

  /** Where `find()` resumes after a match at `i`: its end, or one further after an empty match. */
  function After(p: Pattern, i: nat): (j: nat)
    ensures j > i
  {
    if |p.literal| == 0 then i + 1 else i + |p.literal|
  }

  /** The starts of the successive matches `find()` reports, from `from` on. */
  function Matches(p: Pattern, t: string, from: nat): (r: seq<nat>)
    ensures forall k :: 0 <= k < |r| ==> from <= r[k] <= |t| && MatchAt(p, t, r[k])
    ensures forall k :: 0 <= k < |r| - 1 ==> After(p, r[k]) <= r[k + 1]
    decreases |t| + 1 - from
  {
    match FindFrom(p, t, from)
    case None => []
    case Some(i) => [i] + Matches(p, t, After(p, i))
  }

  /** A reported match covers position `j`. */
  predicate Covered(p: Pattern, ms: seq<nat>, j: int) {
    exists k :: 0 <= k < |ms| && ms[k] <= j < After(p, ms[k])
  }

  /**
   * The scan misses nothing: every position where the pattern matches lies
   * inside a reported match (it is reported itself, or it overlaps an
   * earlier one and non-overlapping matching skips it).
   */
  lemma {:induction false} MatchesComplete(p: Pattern, t: string, from: nat, j: nat)
    requires from <= j && MatchAt(p, t, j)
    ensures Covered(p, Matches(p, t, from), j)
    decreases |t| + 1 - from
  {
    var ms := Matches(p, t, from);
    var i := FindFrom(p, t, from).value;
    if j < After(p, i) {
      assert ms[0] == i;
    } else {
      MatchesComplete(p, t, After(p, i), j);
      var rest := Matches(p, t, After(p, i));
      var k :| 0 <= k < |rest| && rest[k] <= j < After(p, rest[k]);
      assert ms[k + 1] == rest[k];
    }
  }

  /** Non-empty matches never overlap, so they cannot outnumber the room for them. */
  lemma {:induction false} MatchesBound(p: Pattern, t: string, from: nat)
    requires |p.literal| > 0 && from <= |t|
    ensures |Matches(p, t, from)| * |p.literal| <= |t| - from
    decreases |t| + 1 - from
  {
    match FindFrom(p, t, from)
    case None =>
    case Some(i) =>
      var n := |p.literal|;
      var next := After(p, i);
      MatchesBound(p, t, next);
      Distribute(n, |Matches(p, t, next)|);
      assert |Matches(p, t, from)| * n == (1 + |Matches(p, t, next)|) * n;
  }

  /** The count is zero exactly when the pattern matches nowhere. */
  lemma NoMatchesIff(p: Pattern, t: string)
    ensures Matches(p, t, 0) == [] <==> forall j :: 0 <= j ==> !MatchAt(p, t, j)
  {
    if Matches(p, t, 0) == [] {
      forall j | 0 <= j ensures !MatchAt(p, t, j) {
        if MatchAt(p, t, j) {
          MatchesComplete(p, t, 0, j);
        }
      }
    }
  }

  /**
   * The count loop of the editor: `while (matcher.find()) count++;`.
   */
  method CountMatches(p: Pattern, t: string) returns (count: nat)
    ensures count == |Matches(p, t, 0)|
  {
    count := 0;
    var from := 0;
    var found := FindFrom(p, t, from);
    while found.Some?
      invariant from <= |t| + 1
      invariant found == FindFrom(p, t, from)
      invariant count + |Matches(p, t, from)| == |Matches(p, t, 0)|
      decreases |t| + 1 - from
    {
      count := count + 1;
      from := After(p, found.value);
      found := FindFrom(p, t, from);
    }
  }

  // ---------------------------------------------------------------------
  // Find next, repeated

  /** Each reported match is followed by the leftmost match from where `find()` resumes. */
  lemma {:induction false} MatchesNext(p: Pattern, t: string, from: nat, k: nat)
    requires k < |Matches(p, t, from)|
    ensures var ms := Matches(p, t, from);
            FindFrom(p, t, After(p, ms[k])) == if k + 1 < |ms| then Some(ms[k + 1]) else None
    decreases |t| + 1 - from
  {
    var i := FindFrom(p, t, from).value;
    if k > 0 {
      MatchesNext(p, t, After(p, i), k - 1);
    }
  }

  /** Without `\b`, a match in the tail is a match in the whole text, shifted by the caret. */
  lemma TailMatch(p: Pattern, t: string, c: nat, j: nat)
    requires !p.wholeWord && c <= |t|
    ensures MatchAt(p, t[c..], j) <==> MatchAt(p, t, c + j)
  {
    if j + |p.literal| <= |t| - c {
      forall k | 0 <= k < |p.literal|
        ensures RegexCharEq(t[c..][j + k], p.literal[k], p.caseSensitive) ==
                RegexCharEq(t[c + j + k], p.literal[k], p.caseSensitive)
      {
        assert t[c..][j + k] == t[c + j + k];
      }
    }
  }

  /**
   * The search the caret-relative find evidently means: the matcher runs
   * over the whole text from the caret (`matcher.find(caret)`), so `\b`
   * still sees the character before the caret.
   */
  function FindNextInText(p: Pattern, text: string, caret: nat): (span: Option<(nat, nat)>)
    requires caret <= |text|
    ensures span.Some? ==> caret <= span.value.0 <= span.value.1 <= |text|
    ensures span.Some? ==> span.value.1 - span.value.0 == |p.literal| && MatchAt(p, text, span.value.0)
    ensures span.Some? ==> forall j :: caret <= j < span.value.0 ==> !MatchAt(p, text, j)
    ensures span.None? <==> forall j :: caret <= j ==> !MatchAt(p, text, j)
  {
    match FindFrom(p, text, caret)
    case None => None
    case Some(s) => Some((s, s + |p.literal|))
  }

  /**
   * Searching the whole text from the caret, find next started at the end
   * of the k-th counted match reports the next counted match, or nothing
   * after the last one: repeated, it visits exactly the matches the count
   * reports, in every mode.
   */
  lemma FindNextInTextVisitsMatches(p: Pattern, t: string, k: nat)
    requires |p.literal| > 0 && k < |Matches(p, t, 0)|
    ensures var ms := Matches(p, t, 0);
            var e := ms[k] + |p.literal|;
            e <= |t| &&
            (k + 1 < |ms| ==> FindNextInText(p, t, e).Some? && FindNextInText(p, t, e).value.0 == ms[k + 1]) &&
            (k + 1 == |ms| ==> FindNextInText(p, t, e).None?)
  {
    MatchesNext(p, t, 0, k);
  }

  /** In substring mode the tail search and the whole-text search agree. */
  lemma LocateIsFindNextInText(p: Pattern, t: string, c: nat)
    requires !p.wholeWord && c <= |t|
    ensures Locate(p, t, c) == FindNextInText(p, t, c)
  {
    forall j: nat ensures MatchAt(p, t[c..], j) <==> MatchAt(p, t, c + j) {
      TailMatch(p, t, c, j);
    }
    match FindFrom(p, t, c)
    case None =>
      forall j: nat ensures !MatchAt(p, t[c..], j) {
        assert !MatchAt(p, t, c + j);
      }
    case Some(s) =>
      forall j: nat | j < s - c ensures !MatchAt(p, t[c..], j) {
        assert !MatchAt(p, t, c + j);
      }
      FindFromLeftmost(p, t[c..], 0, s - c);
  }

  /**
   * In substring mode the editor's find next, started at the end of the
   * k-th counted match (where it leaves the caret), reports the next
   * counted match; after the last one it finds nothing (or the caret is at
   * the end of the text) and the caret goes back to 0.
   */
  lemma FindNextVisitsMatches(p: Pattern, t: string, k: nat)
    requires !p.wholeWord && |p.literal| > 0 && k < |Matches(p, t, 0)|
    ensures var ms := Matches(p, t, 0);
            var e := ms[k] + |p.literal|;
            e <= |t| &&
            (k + 1 < |ms| ==> e < |t| && Locate(p, t, e).Some? && Locate(p, t, e).value.0 == ms[k + 1]) &&
            (k + 1 == |ms| ==> e == |t| || Locate(p, t, e).None?)
  {
    var ms := Matches(p, t, 0);
    var e := ms[k] + |p.literal|;
    FindNextInTextVisitsMatches(p, t, k);
    LocateIsFindNextInText(p, t, e);
    var r := FindNextInText(p, t, e);
    assert Locate(p, t, e) == r;
    if k + 1 < |ms| {
      assert r.Some? && r.value.0 == ms[k + 1];
      assert e <= r.value.0 && r.value.0 + |p.literal| <= |t|;
    } else {
      assert r.None?;
    }
  }

  /**
   * As written, whole-word find next can skip a counted match: "-x" occurs
   * twice as a whole word in "a-x-x", but from the end of the first match
   * the tail "-x" has no `\b` before its '-', so nothing is found and the
   * caret goes back to 0; the second match is never reached.
   */
  lemma WholeWordFindNextSkips()
    ensures Matches(Pattern("-x", true, true), "a-x-x", 0) == [1, 3]
    ensures Locate(Pattern("-x", true, true), "a-x-x", 3) == None
    ensures FindNextInText(Pattern("-x", true, true), "a-x-x", 3) == Some((3, 5))
  {
    var p := Pattern("-x", true, true);
    var t := "a-x-x";
    assert t[0] == 'a' && t[1] == '-' && t[2] == 'x' && t[3] == '-' && t[4] == 'x';
    assert WordAt(t, 0) && !WordAt(t, 1) && WordAt(t, 2) && !WordAt(t, 3) && WordAt(t, 4) && !WordAt(t, 5);
    assert !RegexCharEq(t[0], p.literal[0], true) && !RegexCharEq(t[2], p.literal[0], true);
    assert !MatchAt(p, t, 0) && MatchAt(p, t, 1);
    assert !MatchAt(p, t, 2) && MatchAt(p, t, 3);
    FindFromLeftmost(p, t, 0, 1);
    FindFromLeftmost(p, t, 3, 3);
    assert FindFrom(p, t, 5) == None;
    assert Matches(p, t, 5) == [];
    assert Matches(p, t, 3) == [3];
    var tail := t[3..];
    assert tail == "-x";
    forall j | 0 <= j ensures !MatchAt(p, tail, j) {
      if j == 0 {
        assert !Boundary(tail, 0);
      }
    }
  }

  // ---------------------------------------------------------------------
  // The token test of replace-all

  /** `replaceIfMatch`: the whole token becomes `replaceText` when it matches. */
  function ReplaceIfMatch(word: string, findText: string, replaceText: string,
                          caseSensitive: bool, matchWholeWord: bool): (r: string)
    ensures r == word || r == replaceText
    ensures word == findText ==> r == replaceText
  {
    EqualImpliesContains(word, findText);
    ContainsImpliesContainsIgnoreCase(word, findText);
    EqualsIgnoreCaseReflexive(word);
    if caseSensitive && matchWholeWord && word == findText then replaceText
    else if caseSensitive && !matchWholeWord && Contains(word, findText) then replaceText
    else if !caseSensitive && matchWholeWord && EqualsIgnoreCase(word, findText) then replaceText
    else if !caseSensitive && !matchWholeWord && ContainsIgnoreCase(word, findText) then replaceText
    else word
  }

  /** The condition under which `replaceIfMatch` replaces a token. */
  predicate TokenMatches(word: string, findText: string, caseSensitive: bool, matchWholeWord: bool) {
    if matchWholeWord then
      (if caseSensitive then word == findText else EqualsIgnoreCase(word, findText))
    else
      (if caseSensitive then Contains(word, findText) else ContainsIgnoreCase(word, findText))
  }

  /**
   * A token is replaced as a whole exactly when it matches; the
   * looser settings (substring, case-insensitive) replace every token the
   * stricter ones do.
   */
  lemma ReplaceIfMatchSpec(word: string, findText: string, replaceText: string,
                           caseSensitive: bool, matchWholeWord: bool)
    ensures ReplaceIfMatch(word, findText, replaceText, caseSensitive, matchWholeWord) ==
            if TokenMatches(word, findText, caseSensitive, matchWholeWord) then replaceText else word
    ensures TokenMatches(word, findText, caseSensitive, true) ==> TokenMatches(word, findText, caseSensitive, false)
    ensures TokenMatches(word, findText, true, matchWholeWord) ==> TokenMatches(word, findText, false, matchWholeWord)
  {
    EqualImpliesContains(word, findText);
    ContainsImpliesContainsIgnoreCase(word, findText);
    if word == findText {
      EqualsIgnoreCaseReflexive(word);
    }
  }

  /** The tokens after replace-all's loop: each one checked and replaced on its own. */
  function ReplaceEach(tokens: seq<string>, findText: string, replaceText: string,
                       caseSensitive: bool, matchWholeWord: bool): (r: seq<string>)
    ensures |r| == |tokens|
  {
    seq(|tokens|, i requires 0 <= i < |tokens| =>
      ReplaceIfMatch(tokens[i], findText, replaceText, caseSensitive, matchWholeWord))
  }

  /** Replace-all's `for` loop, overwriting the token array in place. */
  method ReplaceTokens(tokens: array<string>, findText: string, replaceText: string,
                       caseSensitive: bool, matchWholeWord: bool)
    modifies tokens
    ensures tokens[..] == ReplaceEach(old(tokens[..]), findText, replaceText, caseSensitive, matchWholeWord)
  {
    for i := 0 to tokens.Length
      invariant forall k :: 0 <= k < i ==>
                  tokens[k] == ReplaceIfMatch(old(tokens[k]), findText, replaceText, caseSensitive, matchWholeWord)
      invariant forall k :: i <= k < tokens.Length ==> tokens[k] == old(tokens[k])
    {
      tokens[i] := ReplaceIfMatch(tokens[i], findText, replaceText, caseSensitive, matchWholeWord);
    }
  }
}
