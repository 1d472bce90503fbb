/**
 * The `java.lang.String`, `java.lang.Character` and commons-lang
 * `StringUtils` operations the editor calls, stated on `seq<char>`.
 *
 * Case mapping follows `Character.toUpperCase` / `toLowerCase` on the
 * Latin-1 letters (ASCII A-Z and U+00C0..U+00DE except U+00D7, with their
 * lower-case partners 32 code points higher); every other character is
 * treated as having no case.
 */
module JavaStrings {

  predicate IsUpperLatin1(c: char) {
    ('A' <= c <= 'Z') || ('\U{C0}' <= c <= '\U{DE}' && c != '\U{D7}')
  }

  predicate IsLowerLatin1(c: char) {
    ('a' <= c <= 'z') || ('\U{E0}' <= c <= '\U{FE}' && c != '\U{F7}')
  }

  /** `Character.toLowerCase`. */
  function ToLowerChar(c: char): (l: char)
    ensures !IsUpperLatin1(l)
    ensures l == c || (IsUpperLatin1(c) && IsLowerLatin1(l) && l as int == c as int + 32)
  {
    if IsUpperLatin1(c) then (c as int + 32) as char else c
  }

  /** `Character.toUpperCase`. */
  function ToUpperChar(c: char): (u: char)
    ensures !IsLowerLatin1(u)
    ensures u == c || (IsLowerLatin1(c) && IsUpperLatin1(u) && u as int == c as int - 32)
  {
    if IsLowerLatin1(c) then (c as int - 32) as char else c
  }

  /** `String.toLowerCase`, one character at a time. */
  function LowerCase(s: string): (t: string)
    ensures |t| == |s|
    ensures forall i :: 0 <= i < |s| ==> t[i] == ToLowerChar(s[i])
  {
    if s == [] then [] else [ToLowerChar(s[0])] + LowerCase(s[1..])
  }

  /** The per-character rule of `String.equalsIgnoreCase` and of `regionMatches(true, ...)`. */
  predicate CharEqualsIgnoreCase(a: char, b: char) {
    a == b || ToUpperChar(a) == ToUpperChar(b) ||
    ToLowerChar(ToUpperChar(a)) == ToLowerChar(ToUpperChar(b))
  }

  /**
   * `a.equalsIgnoreCase(b)`, defined by the body: the same length and every
   * pair of characters equal after upper-casing or after upper- then
   * lower-casing.  Equal strings, and only strings of one length, compare equal.
   */
  predicate EqualsIgnoreCase(a: string, b: string): (r: bool)
    ensures a == b ==> r
    ensures r ==> |a| == |b|
  {
    |a| == |b| && forall i :: 0 <= i < |a| ==> CharEqualsIgnoreCase(a[i], b[i])
  }

  predicate OccursAt(s: string, t: string, i: int) {
    0 <= i && i + |t| <= |s| && s[i..i + |t|] == t
  }

  predicate OccursAtIgnoreCase(s: string, t: string, i: int) {
    0 <= i && i + |t| <= |s| && EqualsIgnoreCase(s[i..i + |t|], t)
  }

  /** `StringUtils.contains(s, t)`, defined by the body: `t` occurs in `s` at some offset. */
  predicate Contains(s: string, t: string): (r: bool)
    ensures r ==> |t| <= |s|
    ensures |t| <= |s| && s[..|t|] == t ==> r
    ensures |t| <= |s| && s[|s| - |t|..] == t ==> r
  {
    assert |t| <= |s| && s[..|t|] == t ==> OccursAt(s, t, 0);
    assert |t| <= |s| && s[|s| - |t|..] == t ==> OccursAt(s, t, |s| - |t|);
    exists i :: 0 <= i <= |s| && OccursAt(s, t, i)
  }

  /**
   * `StringUtils.containsIgnoreCase(s, t)`, defined by the body: `t` occurs
   * in `s` at some offset up to `equalsIgnoreCase`; the empty string is in
   * every string.
   */
  predicate ContainsIgnoreCase(s: string, t: string): (r: bool)
    ensures r ==> |t| <= |s|
    ensures t == [] ==> r
  {
    assert t == [] ==> OccursAtIgnoreCase(s, t, 0);
    exists i :: 0 <= i <= |s| && OccursAtIgnoreCase(s, t, i)
  }

  lemma EqualsIgnoreCaseReflexive(s: string)
    ensures EqualsIgnoreCase(s, s)
  {
  }

  /** A whole-token match is also a substring match, with or without case. */
  lemma EqualImpliesContains(s: string, t: string)
    ensures s == t ==> Contains(s, t)
    ensures EqualsIgnoreCase(s, t) ==> ContainsIgnoreCase(s, t)
  {
    if s == t {
      assert s[0..|t|] == t;
      assert OccursAt(s, t, 0);
    }
    if EqualsIgnoreCase(s, t) {
      assert s[0..|t|] == s;
      assert OccursAtIgnoreCase(s, t, 0);
    }
  }

  /** A case-sensitive match is also a case-insensitive one. */
  lemma ContainsImpliesContainsIgnoreCase(s: string, t: string)
    ensures Contains(s, t) ==> ContainsIgnoreCase(s, t)
  {
    if Contains(s, t) {
      var i :| 0 <= i <= |s| && OccursAt(s, t, i);
      EqualsIgnoreCaseReflexive(t);
      assert OccursAtIgnoreCase(s, t, i);
    }
  }

  // ---------------------------------------------------------------------
  // String.replace(CharSequence, CharSequence)

  /** What `s.replace("", r)` gives: `r` before every character and at the end. */
  function InsertEverywhere(s: string, r: string): string {
    if s == [] then r else r + [s[0]] + InsertEverywhere(s[1..], r)
  }

  /**
   * `s.replace(target, r)`: every non-overlapping occurrence, scanned left
   * to right.  A replacement no longer than the target never lengthens the
   * text, and one of the same length keeps its length.
   */
  function Replace(s: string, target: string, r: string): (res: string)
    ensures target != [] && |r| <= |target| ==> |res| <= |s|
    ensures target != [] && |r| == |target| ==> |res| == |s|
    decreases |s|
  {
    if target == [] then InsertEverywhere(s, r)
    else if |target| <= |s| && s[..|target|] == target then r + Replace(s[|target|..], target, r)
    else if s == [] then []
    else [s[0]] + Replace(s[1..], target, r)
  }

  /** Number of occurrences `Replace` rewrites. */
  function Occurrences(s: string, target: string): nat
    requires target != []
    decreases |s|
  {
    if |target| <= |s| && s[..|target|] == target then 1 + Occurrences(s[|target|..], target)
    else if s == [] then 0
    else Occurrences(s[1..], target)
  }

  /** Replacing the empty string with the empty string changes nothing. */
  lemma {:induction false} ReplaceEmptyByEmpty(s: string)
    ensures Replace(s, [], []) == s
  {
    if s != [] {
      ReplaceEmptyByEmpty(s[1..]);
    }
  }

  /** Each occurrence changes the length by `|r| - |target|`. */
  lemma {:induction false} ReplaceLength(s: string, target: string, r: string)
    requires target != []
    ensures |Replace(s, target, r)| == |s| + (|r| - |target|) * Occurrences(s, target)
    decreases |s|
  {
    if |target| <= |s| && s[..|target|] == target {
      ReplaceLength(s[|target|..], target, r);
      Distribute(|r| - |target|, Occurrences(s[|target|..], target));
    } else if s != [] {
      ReplaceLength(s[1..], target, r);
    }
  }

  lemma Distribute(d: int, n: nat)
    ensures d * (1 + n) == d + d * n
  {
  }

  /** Without an occurrence, `replace` gives the text back. */
  lemma {:induction false} ReplaceWithoutOccurrence(s: string, target: string, r: string)
    requires target != [] && Occurrences(s, target) == 0
    ensures Replace(s, target, r) == s
    decreases |s|
  {
    if s != [] {
      ReplaceWithoutOccurrence(s[1..], target, r);
    }
  }

  /** An occurrence anywhere in the text is found by the scan. */
  lemma {:induction false} OccurrenceIsCounted(s: string, target: string, j: nat)
    requires target != [] && j + |target| <= |s| && s[j..j + |target|] == target
    ensures Occurrences(s, target) >= 1
    decreases |s|
  {
    if !(s[..|target|] == target) {
      assert j > 0;
      assert s[1..][j - 1..j - 1 + |target|] == s[j..j + |target|];
      OccurrenceIsCounted(s[1..], target, j - 1);
    }
  }

  /** Removing every occurrence of a target found at `j` shortens the text by its length at least once. */
  lemma RemoveOccurrences(s: string, target: string, j: nat)
    requires target != [] && j + |target| <= |s| && s[j..j + |target|] == target
    ensures Occurrences(s, target) >= 1
    ensures |Replace(s, target, [])| == |s| - |target| * Occurrences(s, target)
    ensures |Replace(s, target, [])| <= |s| - |target|
  {
    ReplaceLength(s, target, []);
    OccurrenceIsCounted(s, target, j);
    ShrinkAtLeastOnce(|target|, Occurrences(s, target));
  }

  lemma ShrinkAtLeastOnce(d: nat, n: nat)
    requires n >= 1
    ensures (0 - d) * n == 0 - d * n && d <= d * n
  {
    Distribute(d, n - 1);
  }

  /** Replacing one character by one character maps the text position by position. */
  lemma {:induction false} ReplaceOneChar(s: string, a: char, b: char)
    ensures |Replace(s, [a], [b])| == |s|
    ensures forall i :: 0 <= i < |s| ==> Replace(s, [a], [b])[i] == if s[i] == a then b else s[i]
  {
    if s != [] {
      ReplaceOneChar(s[1..], a, b);
      if s[..1] == [a] {
        assert s[0] == a;
      }
    }
  }

  // ---------------------------------------------------------------------
  // Integer.toString for non-negative values

  function DigitChar(d: nat): (c: char)
    requires d < 10
    ensures '0' <= c <= '9'
  {
    ('0' as int + d) as char
  }

  predicate AllDigits(s: string) {
    forall i :: 0 <= i < |s| ==> '0' <= s[i] <= '9'
  }

  /** `Integer.toString(n)` for `n >= 0`. */
  function Decimal(n: nat): (s: string)
    ensures |s| >= 1 && AllDigits(s)
    ensures s[0] == '0' ==> n == 0
    decreases n
  {
    if n < 10 then [DigitChar(n)] else Decimal(n / 10) + [DigitChar(n % 10)]
  }

  /** `Integer.parseInt` on a string of decimal digits. */
  function ParseDecimal(s: string): nat
    requires AllDigits(s)
  {
    if s == [] then 0
    else ParseDecimal(s[..|s| - 1]) * 10 + (s[|s| - 1] as int - '0' as int)
  }

  lemma {:induction false} DecimalRoundTrip(n: nat)
    ensures ParseDecimal(Decimal(n)) == n
    decreases n
  {
    if n >= 10 {
      DecimalRoundTrip(n / 10);
      var s := Decimal(n);
      assert s[..|s| - 1] == Decimal(n / 10);
    }
  }

  lemma DecimalInjective(m: nat, n: nat)
    ensures Decimal(m) == Decimal(n) ==> m == n
  {
    DecimalRoundTrip(m);
    DecimalRoundTrip(n);
  }
}
