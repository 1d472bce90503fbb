/**
 * The two `String.split` flavours the editor relies on, with Java's own
 * rules: a string with no separator splits into itself (so "" gives [""]),
 * a positive-width separator at the start yields an empty first piece, and
 * trailing empty pieces are dropped.  `Join` is `String.join`.
 *
 * Every definition peels the LAST character off, because the interesting
 * behaviour (dropping trailing empty pieces) happens at the end.
 */
module JavaSplit {

  /** Java's `\s`: space, tab, newline, vertical tab, form feed, carriage return. */
  predicate IsJavaSpace(c: char) {
    c == ' ' || c == '\t' || c == '\n' || c == '\U{0B}' || c == '\U{0C}' || c == '\r'
  }

  predicate IsNewline(c: char) {
    c == '\n'
  }

  predicate HasSep(s: string, sep: char -> bool) {
    exists i :: 0 <= i < |s| && sep(s[i])
  }

  /** Number of separator characters in `s`. */
  function SepCount(s: string, sep: char -> bool): nat {
    if s == [] then 0
    else SepCount(s[..|s| - 1], sep) + (if sep(s[|s| - 1]) then 1 else 0)
  }

  /** `s` without its trailing separator characters. */
  function TrimTrailing(s: string, sep: char -> bool): (t: string)
    ensures |t| <= |s| && t == s[..|t|]
    ensures t != [] ==> !sep(t[|t| - 1])
    ensures forall i :: |t| <= i < |s| ==> sep(s[i])
  {
    if s == [] || !sep(s[|s| - 1]) then s
    else TrimTrailing(s[..|s| - 1], sep)
  }

  /** Every separator character replaced by a single space. */
  function SpaceOut(s: string, sep: char -> bool): (t: string)
    ensures |t| == |s|
    ensures forall i :: 0 <= i < |s| ==> t[i] == if sep(s[i]) then ' ' else s[i]
  {
    if s == [] then []
    else SpaceOut(s[..|s| - 1], sep) + [if sep(s[|s| - 1]) then ' ' else s[|s| - 1]]
  }

  /** `String.join(d, ps)`: the first piece opens the result and the last one closes it. */
  function Join(d: string, ps: seq<string>): (r: string)
    ensures |ps| == 0 ==> r == []
    ensures |ps| >= 1 ==> |ps[0]| <= |r| && r[..|ps[0]|] == ps[0]
    ensures |ps| >= 1 ==> |ps[|ps| - 1]| <= |r| && r[|r| - |ps[|ps| - 1]|..] == ps[|ps| - 1]
  {
    if |ps| == 0 then []
    else if |ps| == 1 then ps[0]
    else
      var init := Join(d, ps[..|ps| - 1]);
      var r := init + d + ps[|ps| - 1];
      assert ps[..|ps| - 1][0] == ps[0];
      assert r[..|ps[0]|] == init[..|ps[0]|];
      r
  }

  lemma NoSepAppend(x: string, c: char, sep: char -> bool)
    requires !HasSep(x, sep) && !sep(c)
    ensures !HasSep(x + [c], sep)
  {
    forall i | 0 <= i < |x + [c]| ensures !sep((x + [c])[i]) {
      if i < |x| {
        assert (x + [c])[i] == x[i];
      }
    }
  }

  /** The pieces between single separator characters, before Java drops anything. */
  function RawSplit(s: string, sep: char -> bool): (ps: seq<string>)
    ensures |ps| >= 1
    ensures forall k :: 0 <= k < |ps| ==> !HasSep(ps[k], sep)
  {
    if s == [] then [[]]
    else
      var ps := RawSplit(s[..|s| - 1], sep);
      var c := s[|s| - 1];
      if sep(c) then ps + [[]]
      else
        NoSepAppend(ps[|ps| - 1], c, sep);
        ps[..|ps| - 1] + [ps[|ps| - 1] + [c]]
  }

  /** The pieces between maximal runs of separators (the regex `sep+`). */
  function RunSplit(s: string, sep: char -> bool): (ps: seq<string>)
    ensures |ps| >= 1
    ensures forall k :: 0 <= k < |ps| ==> !HasSep(ps[k], sep)
    ensures forall k :: 0 < k < |ps| - 1 ==> ps[k] != []
    ensures s != [] && sep(s[|s| - 1]) ==> ps[|ps| - 1] == []
    ensures s != [] && !sep(s[|s| - 1]) ==> ps[|ps| - 1] != []
  {
    if s == [] then [[]]
    else
      var init := s[..|s| - 1];
      var ps := RunSplit(init, sep);
      var c := s[|s| - 1];
      if sep(c) then
        (if init != [] && sep(init[|init| - 1]) then ps else ps + [[]])
      else
        NoSepAppend(ps[|ps| - 1], c, sep);
        ps[..|ps| - 1] + [ps[|ps| - 1] + [c]]
  }

  function DropTrailingEmpty(ps: seq<string>): (r: seq<string>)
    ensures |r| <= |ps| && r == ps[..|r|]
    ensures r != [] ==> r[|r| - 1] != []
    ensures forall i :: |r| <= i < |ps| ==> ps[i] == []
  {
    if ps != [] && ps[|ps| - 1] == [] then DropTrailingEmpty(ps[..|ps| - 1]) else ps
  }

  /**
   * `s.split(regex)` for a regex matching exactly one separator character:
   * no piece holds a separator, there is at most one piece more than
   * separators, and a last piece after the first is never empty.
   */
  function Split(s: string, sep: char -> bool): (r: seq<string>)
    ensures forall k :: 0 <= k < |r| ==> !HasSep(r[k], sep)
    ensures |r| <= SepCount(s, sep) + 1
    ensures |r| > 1 ==> r[|r| - 1] != []
    ensures r == [] ==> HasSep(s, sep)
  {
    if !HasSep(s, sep) then [s]
    else
      RawSplitCount(s, sep);
      DropTrailingEmpty(RawSplit(s, sep))
  }

  /**
   * `s.split(regex + "+")`: separators are maximal runs, so no piece holds
   * a separator and only the first piece can be empty.
   */
  function SplitRuns(s: string, sep: char -> bool): (r: seq<string>)
    ensures forall k :: 0 <= k < |r| ==> !HasSep(r[k], sep)
    ensures forall k :: 0 < k < |r| ==> r[k] != []
    ensures r == [] ==> HasSep(s, sep)
  {
    if !HasSep(s, sep) then [s] else DropTrailingEmpty(RunSplit(s, sep))
  }

  /** Number of maximal runs of non-separator characters in `s`. */
  function Runs(s: string, sep: char -> bool): nat {
    if s == [] then 0
    else
      var init := s[..|s| - 1];
      Runs(init, sep) + (if !sep(s[|s| - 1]) && (init == [] || sep(init[|init| - 1])) then 1 else 0)
  }

  // ---------------------------------------------------------------------
  // Lemmas about the raw pieces

  lemma {:induction false} RawSplitCount(s: string, sep: char -> bool)
    ensures |RawSplit(s, sep)| == SepCount(s, sep) + 1
  {
    if s != [] {
      RawSplitCount(s[..|s| - 1], sep);
    }
  }

  lemma {:induction false} JoinAppendToLast(d: string, ps: seq<string>, x: string)
    requires |ps| >= 1
    ensures Join(d, ps[..|ps| - 1] + [ps[|ps| - 1] + x]) == Join(d, ps) + x
  {
    var qs := ps[..|ps| - 1] + [ps[|ps| - 1] + x];
    if |ps| > 1 {
      assert qs[..|qs| - 1] == ps[..|ps| - 1];
    }
  }

  /** Joining the raw pieces with " " is the same as turning each separator into a space. */
  lemma {:induction false} JoinRawSplit(s: string, sep: char -> bool)
    ensures Join(" ", RawSplit(s, sep)) == SpaceOut(s, sep)
  {
    if s != [] {
      var init := s[..|s| - 1];
      var c := s[|s| - 1];
      var ps := RawSplit(init, sep);
      JoinRawSplit(init, sep);
      if sep(c) {
        var qs := ps + [[]];
        assert qs[..|qs| - 1] == ps;
      } else {
        JoinAppendToLast(" ", ps, [c]);
      }
    }
  }

  lemma {:induction false} RawSplitLastNonEmpty(s: string, sep: char -> bool)
    requires s != [] && !sep(s[|s| - 1])
    ensures var ps := RawSplit(s, sep); ps[|ps| - 1] != []
  {
  }

  /** Dropping the trailing empty pieces is the same as splitting without the trailing separators. */
  lemma {:induction false} DropTrailingRaw(s: string, sep: char -> bool)
    ensures DropTrailingEmpty(RawSplit(s, sep)) ==
            if TrimTrailing(s, sep) == [] then [] else RawSplit(TrimTrailing(s, sep), sep)
  {
    if s == [] {
    } else if !sep(s[|s| - 1]) {
      RawSplitLastNonEmpty(s, sep);
    } else {
      var init := s[..|s| - 1];
      var ps := RawSplit(init, sep);
      var qs := ps + [[]];
      assert qs[..|qs| - 1] == ps;
      DropTrailingRaw(init, sep);
    }
  }

  lemma {:induction false} NoSepSpaceOut(s: string, sep: char -> bool)
    requires !HasSep(s, sep)
    ensures SpaceOut(s, sep) == s && TrimTrailing(s, sep) == s
  {
    if s != [] {
      assert !sep(s[|s| - 1]);
      var t := SpaceOut(s, sep);
      assert forall i :: 0 <= i < |s| ==> t[i] == s[i] by {
        forall i | 0 <= i < |s| ensures t[i] == s[i] {
          assert !sep(s[i]);
        }
      }
    }
  }

  /**
   * What `String.join(" ", s.split(sep))` does to a text: every separator
   * becomes one space (runs are not collapsed) and trailing separators vanish.
   */
  lemma SplitJoinRendering(s: string, sep: char -> bool)
    ensures Join(" ", Split(s, sep)) == SpaceOut(TrimTrailing(s, sep), sep)
  {
    if !HasSep(s, sep) {
      NoSepSpaceOut(s, sep);
    } else {
      DropTrailingRaw(s, sep);
      var t := TrimTrailing(s, sep);
      if t != [] {
        JoinRawSplit(t, sep);
      }
    }
  }

  /** Trimming removes only separators: each one cut lowers the separator count by one. */
  lemma {:induction false} SepCountTrim(s: string, sep: char -> bool)
    ensures SepCount(TrimTrailing(s, sep), sep) + (|s| - |TrimTrailing(s, sep)|) == SepCount(s, sep)
  {
    if s != [] && sep(s[|s| - 1]) {
      SepCountTrim(s[..|s| - 1], sep);
    }
  }

  /** Trailing separators open no word. */
  lemma {:induction false} RunsTrim(s: string, sep: char -> bool)
    ensures Runs(TrimTrailing(s, sep), sep) == Runs(s, sep)
  {
    if s != [] && sep(s[|s| - 1]) {
      RunsTrim(s[..|s| - 1], sep);
    }
  }

  /** Closed form of `|s.split(sep)|`. */
  lemma SplitLength(s: string, sep: char -> bool)
    ensures |Split(s, sep)| ==
            if !HasSep(s, sep) then 1
            else if TrimTrailing(s, sep) == [] then 0
            else SepCount(TrimTrailing(s, sep), sep) + 1
  {
    if HasSep(s, sep) {
      DropTrailingRaw(s, sep);
      var t := TrimTrailing(s, sep);
      if t != [] {
        RawSplitCount(t, sep);
      }
    }
  }

  // ---------------------------------------------------------------------
  // Lemmas about the run pieces

  lemma {:induction false} RunSplitCount(s: string, sep: char -> bool)
    requires s != []
    ensures |RunSplit(s, sep)| ==
            Runs(s, sep) + (if sep(s[0]) then 1 else 0) + (if sep(s[|s| - 1]) then 1 else 0)
  {
    var init := s[..|s| - 1];
    if init != [] {
      assert init[0] == s[0];
      RunSplitCount(init, sep);
    }
  }

  lemma {:induction false} DropTrailingRuns(s: string, sep: char -> bool)
    ensures DropTrailingEmpty(RunSplit(s, sep)) ==
            if TrimTrailing(s, sep) == [] then [] else RunSplit(TrimTrailing(s, sep), sep)
  {
    if s == [] {
    } else if !sep(s[|s| - 1]) {
    } else {
      var init := s[..|s| - 1];
      var ps := RunSplit(init, sep);
      if init != [] && sep(init[|init| - 1]) {
        DropTrailingRuns(init, sep);
      } else {
        var qs := ps + [[]];
        assert qs[..|qs| - 1] == ps;
        if init == [] {
        } else {
          assert TrimTrailing(init, sep) == init;
        }
      }
    }
  }

  /**
   * Closed form of `|s.split(sep + "+")|`: 1 without any separator (even for
   * ""), 0 when the text is only separators, otherwise the number of words
   * plus one empty leading piece when the text starts with a separator.
   */
  lemma SplitRunsLength(s: string, sep: char -> bool)
    ensures |SplitRuns(s, sep)| ==
            if !HasSep(s, sep) then 1
            else if TrimTrailing(s, sep) == [] then 0
            else Runs(TrimTrailing(s, sep), sep) + (if sep(s[0]) then 1 else 0)
  {
    if HasSep(s, sep) {
      DropTrailingRuns(s, sep);
      var t := TrimTrailing(s, sep);
      if t != [] {
        RunSplitCount(t, sep);
        assert t[0] == s[0];
      }
    }
  }

  // ---------------------------------------------------------------------
  // Splitting what was joined

  lemma {:induction false} NoSepRawSplit(w: string, sep: char -> bool)
    requires !HasSep(w, sep)
    ensures RawSplit(w, sep) == [w]
  {
    if w != [] {
      var init := w[..|w| - 1];
      assert !HasSep(init, sep) by {
        forall i | 0 <= i < |init| ensures !sep(init[i]) {
          assert init[i] == w[i];
        }
      }
      NoSepRawSplit(init, sep);
      assert init + [w[|w| - 1]] == w;
    }
  }

  /** A separator followed by a separator-free `w` adds `w` as one more piece. */
  lemma {:induction false} RawSplitAppendPiece(x: string, c: char, w: string, sep: char -> bool)
    requires sep(c) && !HasSep(w, sep)
    ensures RawSplit(x + [c] + w, sep) == RawSplit(x, sep) + [w]
    decreases |w|
  {
    var s := x + [c] + w;
    if w == [] {
      assert s[..|s| - 1] == x;
    } else {
      var init := w[..|w| - 1];
      assert !HasSep(init, sep) by {
        forall i | 0 <= i < |init| ensures !sep(init[i]) {
          assert init[i] == w[i];
        }
      }
      RawSplitAppendPiece(x, c, init, sep);
      assert s[..|s| - 1] == x + [c] + init;
      assert !sep(w[|w| - 1]);
      assert init + [w[|w| - 1]] == w;
    }
  }

  lemma {:induction false} RawSplitJoin(toks: seq<string>, sep: char -> bool)
    requires sep(' ') && |toks| >= 1
    requires forall k :: 0 <= k < |toks| ==> !HasSep(toks[k], sep)
    ensures RawSplit(Join(" ", toks), sep) == toks
  {
    if |toks| == 1 {
      NoSepRawSplit(toks[0], sep);
    } else {
      var init := toks[..|toks| - 1];
      RawSplitJoin(init, sep);
      assert Join(" ", toks) == Join(" ", init) + [' '] + toks[|toks| - 1];
      RawSplitAppendPiece(Join(" ", init), ' ', toks[|toks| - 1], sep);
      assert init + [toks[|toks| - 1]] == toks;
    }
  }

  /**
   * `split` undoes `join`: separator-free tokens joined by single spaces
   * split back into the same tokens, as long as the last one is not empty
   * (Java would drop it) or there is only one.
   */
  lemma SplitJoinRoundTrip(toks: seq<string>, sep: char -> bool)
    requires sep(' ') && |toks| >= 1
    requires forall k :: 0 <= k < |toks| ==> !HasSep(toks[k], sep)
    requires |toks| == 1 || toks[|toks| - 1] != []
    ensures Split(Join(" ", toks), sep) == toks
  {
    RawSplitJoin(toks, sep);
    if |toks| == 1 {
      NoSepSpaceOut(toks[0], sep);
    } else {
      var s := Join(" ", toks);
      var init := toks[..|toks| - 1];
      assert s == Join(" ", init) + [' '] + toks[|toks| - 1];
      assert s[|Join(" ", init)|] == ' ';
      assert HasSep(s, sep);
    }
  }
}
