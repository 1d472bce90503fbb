/**
 * The editor's event controller: find next, find and replace, replace all,
 * count, and the cut / copy / paste / delete actions, acting on the text
 * area of the selected tab.
 *
 * A `TextArea` holds what the toolkit widget holds: the text, the caret,
 * and the selection anchor (the selection is the range between the two).
 * Its methods are the widget calls the controller makes; the controller's
 * own logic lives in `EventController`.  The find pane's widgets are read
 * into a `FindFields` value; `None` stands for the find window not being
 * open.
 */
module Editing {
  import opened Optional
  import opened JavaStrings
  import opened JavaSplit
  import opened Search

  function Min(a: nat, b: nat): nat {
    if a <= b then a else b
  }

  function Max(a: nat, b: nat): nat {
    if a <= b then b else a
  }

  class TextArea {
    var text: string
    var caret: nat
    var anchor: nat

    ghost predicate Valid()
      reads this
    {
      caret <= |text| && anchor <= |text|
    }

    /** `getSelectedText()`: as long as the distance between anchor and caret, empty exactly when they meet. */
    function SelectedText(): (r: string)
      reads this
      requires Valid()
      ensures |r| == Max(anchor, caret) - Min(anchor, caret)
      ensures r == [] <==> anchor == caret
    {
      text[Min(anchor, caret)..Max(anchor, caret)]
    }

    constructor (content: string)
      ensures Valid() && text == content && caret == 0 && anchor == 0
    {
      text, caret, anchor := content, 0, 0;
    }

    /** `setText`: the widget puts the caret at the start and clears the selection. */
    method SetText(s: string)
      modifies this
      ensures Valid() && text == s && caret == 0 && anchor == 0
    {
      text, caret, anchor := s, 0, 0;
    }

    /** `replaceText(start, end, s)`: the caret ends after the inserted text. */
    method ReplaceText(start: nat, end: nat, s: string)
      requires Valid() && start <= end <= |text|
      modifies this
      ensures Valid()
      ensures text == old(text[..start]) + s + old(text[end..])
      ensures caret == start + |s| && anchor == caret
    {
      text := text[..start] + s + text[end..];
      caret, anchor := start + |s|, start + |s|;
    }

    /** `selectRange(anchor, caret)`, both ends clamped to the text. */
    method SelectRange(a: nat, c: nat)
      requires Valid()
      modifies this`caret, this`anchor
      ensures Valid() && anchor == Min(a, |text|) && caret == Min(c, |text|)
    {
      anchor, caret := Min(a, |text|), Min(c, |text|);
    }

    /** `positionCaret(pos)`: an empty selection at `pos`. */
    method PositionCaret(pos: nat)
      requires Valid()
      modifies this`caret, this`anchor
      ensures Valid() && anchor == Min(pos, |text|) && caret == anchor
    {
      SelectRange(pos, pos);
    }
  }

  /** What the find pane's text fields and check boxes hold. */
  datatype FindFields = FindFields(findText: string, replaceText: string,
                                   matchWholeWord: bool, caseSensitive: bool)

  // ---------------------------------------------------------------------
  // The effect of each action on a text area

  /**
   * The caret-relative search: at the end of the text, or without a match
   * in `text[caret..]`, only the caret moves (to 0); on a match `[s, e)`
   * the replacement (when non-empty) is spliced over it and the range
   * `[s, e)` as it was before the splice is selected.
   */
  twostate predicate SearchedFromCaret(area: TextArea, findText: string, replaceText: string,
                                       caseSensitive: bool, matchWholeWord: bool)
    reads area
  {
    var text, caret := old(area.text), old(area.caret);
    if caret >= |text| then
      area.text == text && area.caret == 0 && area.anchor == 0
    else
      match Locate(CreateRegexPattern(findText, caseSensitive, matchWholeWord), text, caret)
      case None =>
        area.text == text && area.caret == 0 && area.anchor == 0
      case Some(span) =>
        area.text == (if replaceText == [] then text else text[..span.0] + replaceText + text[span.1..]) &&
        area.anchor == span.0 && area.caret == Min(span.1, |area.text|)
  }

  /**
   * The text replace-all writes back: each whitespace-separated token
   * checked and replaced on its own.  When the replace text is a non-empty
   * word, splitting the result again gives back exactly the replaced
   * tokens.
   */
  function ReplaceAllText(text: string, findText: string, replaceText: string,
                          caseSensitive: bool, matchWholeWord: bool): (r: string)
    ensures replaceText != [] && !HasSep(replaceText, IsJavaSpace) && Split(text, IsJavaSpace) != [] ==>
              Split(r, IsJavaSpace) ==
              ReplaceEach(Split(text, IsJavaSpace), findText, replaceText, caseSensitive, matchWholeWord)
  {
    var toks := Split(text, IsJavaSpace);
    var out := ReplaceEach(toks, findText, replaceText, caseSensitive, matchWholeWord);
    if replaceText != [] && !HasSep(replaceText, IsJavaSpace) && toks != [] then
      assert forall k :: 0 <= k < |out| ==> out[k] == toks[k] || out[k] == replaceText;
      assert |out| > 1 ==> out[|out| - 1] != [];
      SplitJoinRoundTrip(out, IsJavaSpace);
      Join(" ", out)
    else
      Join(" ", out)
  }

  twostate predicate ReplacedAll(area: TextArea, findText: string, replaceText: string,
                                 caseSensitive: bool, matchWholeWord: bool)
    reads area
  {
    if findText == [] then
      area.text == old(area.text) && area.caret == old(area.caret) && area.anchor == old(area.anchor)
    else
      area.text == ReplaceAllText(old(area.text), findText, replaceText, caseSensitive, matchWholeWord) &&
      area.caret == 0 && area.anchor == 0
  }

  /** Cut and delete: every occurrence of the selected text is removed from the whole text. */
  twostate predicate RemovedSelection(area: TextArea)
    reads area
  {
    old(area.Valid()) &&
    area.text == Replace(old(area.text), old(area.SelectedText()), []) &&
    area.caret == 0 && area.anchor == 0
  }

  twostate predicate Pasted(area: TextArea, clip: string)
    reads area
  {
    var pos := old(area.caret);
    pos <= |old(area.text)| &&
    area.text == old(area.text)[..pos] + clip + old(area.text)[pos..] &&
    area.caret == pos && area.anchor == pos
  }

  // ---------------------------------------------------------------------
  // Properties of those effects

  /**
   * Find and replace on a small example: in "foo bar foo" with the
   * caret at 0, replacing the whole word "foo" by "baz" edits the first
   * occurrence only and selects [0, 3).
   */
  twostate lemma FindAndReplaceExample(area: TextArea)
    requires old(area.text) == "foo bar foo" && old(area.caret) == 0
    requires SearchedFromCaret(area, "foo", "baz", true, true)
    ensures area.text == "baz bar foo" && area.anchor == 0 && area.caret == 3
  {
    var p := CreateRegexPattern("foo", true, true);
    assert "foo bar foo"[0..] == "foo bar foo";
    assert MatchAt(p, "foo bar foo", 0);
    assert Locate(p, "foo bar foo", 0) == Some((0, 3));
    assert "foo bar foo"[..0] + "baz" + "foo bar foo"[3..] == "baz bar foo";
  }

  /**
   * Find next as written skips a counted whole-word match: with the caret
   * at the end of the first "-x" in "a-x-x", nothing is found, the text is
   * kept and the caret goes back to 0.
   */
  twostate lemma FindNextSkipsExample(area: TextArea)
    requires old(area.text) == "a-x-x" && old(area.caret) == 3
    requires SearchedFromCaret(area, "-x", [], true, true)
    ensures area.text == "a-x-x" && area.caret == 0 && area.anchor == 0
  {
    WholeWordFindNextSkips();
  }

  /**
   * Replace-all with no matching token renders the text with every
   * whitespace character turned into one space and the trailing whitespace
   * dropped; runs of spaces survive as empty tokens.
   */
  lemma ReplaceAllWithoutMatch(text: string, findText: string, replaceText: string,
                               caseSensitive: bool, matchWholeWord: bool)
    requires forall tok :: tok in Split(text, IsJavaSpace) ==>
               !TokenMatches(tok, findText, caseSensitive, matchWholeWord)
    ensures ReplaceAllText(text, findText, replaceText, caseSensitive, matchWholeWord) ==
            SpaceOut(TrimTrailing(text, IsJavaSpace), IsJavaSpace)
  {
    var toks := Split(text, IsJavaSpace);
    var replaced := ReplaceEach(toks, findText, replaceText, caseSensitive, matchWholeWord);
    forall i | 0 <= i < |toks| ensures replaced[i] == toks[i] {
      ReplaceIfMatchSpec(toks[i], findText, replaceText, caseSensitive, matchWholeWord);
    }
    assert replaced == toks;
    SplitJoinRendering(text, IsJavaSpace);
  }

  /** Replace-all keeps the number of tokens and rewrites exactly the matching ones. */
  lemma ReplaceAllTokens(text: string, findText: string, replaceText: string,
                         caseSensitive: bool, matchWholeWord: bool, i: nat)
    requires i < |Split(text, IsJavaSpace)|
    ensures var toks := Split(text, IsJavaSpace);
            var out := ReplaceEach(toks, findText, replaceText, caseSensitive, matchWholeWord);
            |out| == |toks| &&
            out[i] == if TokenMatches(toks[i], findText, caseSensitive, matchWholeWord) then replaceText else toks[i]
  {
    ReplaceIfMatchSpec(Split(text, IsJavaSpace)[i], findText, replaceText, caseSensitive, matchWholeWord);
  }

  /**
   * Cut and delete remove the selection and every other occurrence of it:
   * the text shrinks by the selection's length for each occurrence, at
   * least once when the selection is not empty; an empty selection leaves
   * the text unchanged.
   */
  lemma RemoveSelectionEffect(text: string, a: nat, b: nat)
    requires a <= b <= |text|
    ensures a == b ==> Replace(text, text[a..b], []) == text
    ensures a < b ==> |Replace(text, text[a..b], [])| == |text| - (b - a) * Occurrences(text, text[a..b])
    ensures a < b ==> Occurrences(text, text[a..b]) >= 1 && |Replace(text, text[a..b], [])| <= |text| - (b - a)
  {
    var t := text[a..b];
    if a == b {
      assert t == [];
      ReplaceEmptyByEmpty(text);
    } else {
      RemoveOccurrences(text, t, a);
    }
  }

  /** Where the whole word "cat" occurs in "cat catalog cat". */
  lemma WholeWordPositions(p: Pattern, t: string)
    requires p == CreateRegexPattern("cat", true, true) && t == "cat catalog cat"
    ensures MatchAt(p, t, 0) && MatchAt(p, t, 12)
    ensures forall j :: 3 <= j < 12 ==> !MatchAt(p, t, j)
  {
    forall j | 3 <= j < 12 ensures !MatchAt(p, t, j) {
      if j == 4 {
        assert t[6] == 't' && t[7] == 'a';
      } else {
        MismatchAt(p, t, j, 0);
      }
    }
  }

  /** The count on "cat catalog cat" with whole words: the "cat" inside "catalog" is not counted. */
  lemma CountWholeWordExample()
    ensures |Matches(CreateRegexPattern("cat", true, true), "cat catalog cat", 0)| == 2
  {
    var t := "cat catalog cat";
    var p := CreateRegexPattern("cat", true, true);
    WholeWordPositions(p, t);
    FindFromLeftmost(p, t, 0, 0);
    FindFromLeftmost(p, t, 3, 12);
    assert FindFrom(p, t, 15) == None;
    assert After(p, 0) == 3 && After(p, 12) == 15;
    assert Matches(p, t, 15) == [];
    assert Matches(p, t, 3) == [12];
    assert Matches(p, t, 0) == [0, 12];
  }

  /** Where the substring "cat" occurs in "cat catalog cat". */
  lemma SubstringPositions(p: Pattern, t: string)
    requires p == CreateRegexPattern("cat", true, false) && t == "cat catalog cat"
    ensures MatchAt(p, t, 0) && MatchAt(p, t, 4) && MatchAt(p, t, 12)
    ensures forall j :: 3 <= j < 12 && j != 4 ==> !MatchAt(p, t, j)
  {
    forall j | 3 <= j < 12 && j != 4 ensures !MatchAt(p, t, j) {
      MismatchAt(p, t, j, 0);
    }
  }

  /** The count on "cat catalog cat" without whole words: three matches. */
  lemma CountSubstringExample()
    ensures |Matches(CreateRegexPattern("cat", true, false), "cat catalog cat", 0)| == 3
  {
    var t := "cat catalog cat";
    var p := CreateRegexPattern("cat", true, false);
    SubstringPositions(p, t);
    FindFromLeftmost(p, t, 0, 0);
    FindFromLeftmost(p, t, 3, 4);
    FindFromLeftmost(p, t, 7, 12);
    assert FindFrom(p, t, 15) == None;
    assert After(p, 0) == 3 && After(p, 4) == 7 && After(p, 12) == 15;
    assert Matches(p, t, 15) == [];
    assert Matches(p, t, 7) == [12];
    assert Matches(p, t, 3) == [4, 12];
    assert Matches(p, t, 0) == [0, 4, 12];
  }

  /** `String.join(" ", ...)` of three tokens. */
  lemma JoinThree(a: string, b: string, c: string)
    ensures Join(" ", [a, b, c]) == a + " " + b + " " + c
  {
    assert [a, b, c][..2] == [a, b];
    assert [a, b][..1] == [a];
    assert Join(" ", [a]) == a;
    assert Join(" ", [a, b]) == a + " " + b;
  }

  /** Three separator-free words joined by single spaces split back into those words. */
  lemma SplitThreeWords(a: string, b: string, c: string)
    requires !HasSep(a, IsJavaSpace) && !HasSep(b, IsJavaSpace) && !HasSep(c, IsJavaSpace) && c != []
    ensures Split(a + " " + b + " " + c, IsJavaSpace) == [a, b, c]
  {
    var toks := [a, b, c];
    JoinThree(a, b, c);
    SplitJoinRoundTrip(toks, IsJavaSpace);
  }

  /** "cat catalog cat" splits into its three words. */
  lemma CatCatalogTokens(text: string)
    requires text == "cat catalog cat"
    ensures Split(text, IsJavaSpace) == ["cat", "catalog", "cat"]
  {
    var cat, catalog := text[..3], text[4..11];
    assert cat == "cat" && catalog == "catalog" && text[12..] == cat;
    LowerCaseWord(cat);
    LowerCaseWord(catalog);
    assert text == cat + " " + catalog + " " + cat;
    SplitThreeWords(cat, catalog, cat);
  }

  /** A word of lower-case ASCII letters holds no whitespace. */
  lemma LowerCaseWord(w: string)
    requires forall i :: 0 <= i < |w| ==> 'a' <= w[i] <= 'z'
    ensures !HasSep(w, IsJavaSpace)
  {
  }

  /** Token by token, "catalog" equals "cat" under neither setting but contains it. */
  lemma CatCatalogReplaced()
    ensures ReplaceEach(["cat", "catalog", "cat"], "cat", "dog", true, true) == ["dog", "catalog", "dog"]
    ensures ReplaceEach(["cat", "catalog", "cat"], "cat", "dog", true, false) == ["dog", "dog", "dog"]
  {
    EqualImpliesContains("cat", "cat");
    assert OccursAt("catalog", "cat", 0);
    assert "catalog" != "cat";
  }

  /**
   * Replace-all on "cat catalog cat": the whole word "cat" becomes "dog" in
   * the two tokens that equal it; as a substring it also swallows "catalog".
   */
  lemma ReplaceAllExample(text: string)
    requires text == "cat catalog cat"
    ensures ReplaceAllText(text, "cat", "dog", true, true) == "dog catalog dog"
    ensures ReplaceAllText(text, "cat", "dog", true, false) == "dog dog dog"
  {
    CatCatalogTokens(text);
    CatCatalogReplaced();
    JoinThree("dog", "catalog", "dog");
    assert "dog" + " " + "catalog" + " " + "dog" == "dog catalog dog";
    JoinThree("dog", "dog", "dog");
    assert "dog" + " " + "dog" + " " + "dog" == "dog dog dog";
  }

  /**
   * Runs of spaces survive replace-all: "a   b" splits into "a", "", "", "b"
   * and joins back unchanged when no token can match.
   */
  lemma ReplaceAllKeepsSpaceRuns(text: string, findText: string, replaceText: string,
                                 caseSensitive: bool, matchWholeWord: bool)
    requires text == "a   b"
    requires !TokenMatches("a", findText, caseSensitive, matchWholeWord)
    requires !TokenMatches([], findText, caseSensitive, matchWholeWord)
    requires !TokenMatches("b", findText, caseSensitive, matchWholeWord)
    ensures ReplaceAllText(text, findText, replaceText, caseSensitive, matchWholeWord) == text
  {
    var a, b := text[..1], text[4..];
    var toks := [a, [], [], b];
    SpaceRunTokens(text, a, b);
    assert a == "a" && b == "b";
    var out := ReplaceEach(toks, findText, replaceText, caseSensitive, matchWholeWord);
    forall k | 0 <= k < |toks| ensures out[k] == toks[k] {
      ReplaceIfMatchSpec(toks[k], findText, replaceText, caseSensitive, matchWholeWord);
    }
    assert out == toks;
  }

  /** "a   b" splits into "a", two empty pieces and "b", which join back into "a   b". */
  lemma SpaceRunTokens(text: string, a: string, b: string)
    requires text == "a   b" && a == text[..1] && b == text[4..]
    ensures Split(text, IsJavaSpace) == [a, [], [], b]
    ensures Join(" ", [a, [], [], b]) == text
  {
    var toks := [a, [], [], b];
    assert a == "a" && b == "b";
    LowerCaseWord(a);
    LowerCaseWord(b);
    assert toks[..3] == [a, [], []];
    JoinThree(a, [], []);
    assert Join(" ", toks) == Join(" ", toks[..3]) + " " + b;
    assert Join(" ", toks) == text;
    SplitJoinRoundTrip(toks, IsJavaSpace);
  }

  // ---------------------------------------------------------------------
  // Labels and tab names

  const TabNamePrefix: string := "Sem t\U{ED}tulo ("

  /** The name `onNewTabEvent` gives a new tab when `openTabs` tabs are open. */
  function NewTabName(openTabs: nat): (name: string)
    ensures |name| > |TabNamePrefix| + 1 && name[..|TabNamePrefix|] == TabNamePrefix
    ensures name[|name| - 1] == ')'
    ensures AllDigits(name[|TabNamePrefix|..|name| - 1])
    ensures ParseDecimal(name[|TabNamePrefix|..|name| - 1]) == openTabs
    ensures name[|TabNamePrefix|] == '0' ==> openTabs == 0
  {
    DecimalRoundTrip(openTabs);
    var name := TabNamePrefix + Decimal(openTabs) + ")";
    assert name[|TabNamePrefix|..|name| - 1] == Decimal(openTabs);
    name
  }

  /** The older controller counts one more: the first tab is "(1)" when none is open. */
  function LegacyNewTabName(openTabs: nat): (name: string)
    ensures name == NewTabName(openTabs + 1)
    ensures ParseDecimal(name[|TabNamePrefix|..|name| - 1]) == openTabs + 1
  {
    TabNamePrefix + Decimal(openTabs + 1) + ")"
  }

  const CountLabelPrefix: string := "Total: "
  const CountLabelSuffix: string := " correspond\U{EA}ncia no arquivo."

  /** The find pane's label after a count. */
  function CountLabel(count: nat): (shown: string)
    ensures |shown| > |CountLabelPrefix| + |CountLabelSuffix|
    ensures shown[..|CountLabelPrefix|] == CountLabelPrefix
    ensures shown[|shown| - |CountLabelSuffix|..] == CountLabelSuffix
    ensures AllDigits(shown[|CountLabelPrefix|..|shown| - |CountLabelSuffix|])
    ensures ParseDecimal(shown[|CountLabelPrefix|..|shown| - |CountLabelSuffix|]) == count
    ensures shown[|CountLabelPrefix|] == '0' ==> count == 0
  {
    DecimalRoundTrip(count);
    var shown := CountLabelPrefix + Decimal(count) + CountLabelSuffix;
    assert shown[|CountLabelPrefix|..|shown| - |CountLabelSuffix|] == Decimal(count);
    shown
  }

  // ---------------------------------------------------------------------
  // The controller

  class EventController {
    /** The text area of the selected tab; null when no tab is selected. */
    var selected: TextArea?
    /** The system clipboard's string content, if it has one. */
    var clipboard: Option<string>
    /** The find pane's information label. */
    var findLabel: string

    ghost predicate Valid()
      reads this, selected
    {
      selected != null ==> selected.Valid()
    }

    /** `performSearch(textArea, findText, replaceText, caretPosition, ...)`. */
    static method SearchFromCaret(area: TextArea, findText: string, replaceText: string,
                                  caseSensitive: bool, matchWholeWord: bool)
      requires area.Valid()
      modifies area
      ensures area.Valid()
      ensures SearchedFromCaret(area, findText, replaceText, caseSensitive, matchWholeWord)
    {
      var caret := area.caret;
      var tail := area.text[caret..];
      var regex := CreateRegexPattern(findText, caseSensitive, matchWholeWord);
      if caret == |area.text| {
        area.PositionCaret(0);
        return;
      }
      var found := FindFrom(regex, tail, 0);
      if found.Some? {
        var start, end := caret + found.value, caret + found.value + |findText|;
        if replaceText != [] {
          area.ReplaceText(start, end, replaceText);
        }
        area.SelectRange(start, end);
      } else {
        area.PositionCaret(0);
      }
    }

    /** `performSearch(textArea, findText, replaceText, ...)`: the token-based replace-all. */
    static method ReplaceAll(area: TextArea, findText: string, replaceText: string,
                             caseSensitive: bool, matchWholeWord: bool)
      requires area.Valid()
      modifies area
      ensures area.Valid()
      ensures ReplacedAll(area, findText, replaceText, caseSensitive, matchWholeWord)
    {
      if findText == [] {
        return;
      }
      var pieces := Split(area.text, IsJavaSpace);
      var splitText := new string[|pieces|](i requires 0 <= i < |pieces| => pieces[i]);
      assert splitText[..] == pieces;
      ReplaceTokens(splitText, findText, replaceText, caseSensitive, matchWholeWord);
      area.SetText(Join(" ", splitText[..]));
    }

    /** `searchWord`: reads the find pane and runs the caret-relative search or replace-all. */
    method SearchWord(findStage: Option<FindFields>, searchAndReplaceAll: bool, searchAndReplace: bool)
      requires Valid()
      modifies selected
      ensures Valid()
      ensures findStage.None? || selected == null ==> selected == null || unchanged(selected)
      ensures findStage.Some? && selected != null ==>
                var f := findStage.value;
                var replaceText := if searchAndReplace then f.replaceText else [];
                if searchAndReplaceAll
                then ReplacedAll(selected, f.findText, replaceText, f.caseSensitive, f.matchWholeWord)
                else SearchedFromCaret(selected, f.findText, replaceText, f.caseSensitive, f.matchWholeWord)
    {
      if findStage.None? || selected == null {
        return;
      }
      var f := findStage.value;
      var replaceText := if searchAndReplace then f.replaceText else [];
      if !searchAndReplaceAll {
        SearchFromCaret(selected, f.findText, replaceText, f.caseSensitive, f.matchWholeWord);
      } else {
        ReplaceAll(selected, f.findText, replaceText, f.caseSensitive, f.matchWholeWord);
      }
    }

    /**
     * "Find next": the replace text is always empty, so the text never
     * changes; without a find window or a tab nothing changes at all.
     */
    method OnNextFind(findStage: Option<FindFields>)
      requires Valid()
      modifies selected
      ensures Valid()
      ensures findStage.None? || selected == null ==> selected == null || unchanged(selected)
      ensures selected != null ==> selected.text == old(selected.text)
      ensures findStage.Some? && selected != null ==>
                SearchedFromCaret(selected, findStage.value.findText, [],
                                  findStage.value.caseSensitive, findStage.value.matchWholeWord)
    {
      SearchWord(findStage, false, false);
    }

    method OnFindAndReplace(findStage: Option<FindFields>)
      requires Valid()
      modifies selected
      ensures Valid()
      ensures findStage.None? || selected == null ==> selected == null || unchanged(selected)
      ensures findStage.Some? && selected != null ==>
                SearchedFromCaret(selected, findStage.value.findText, findStage.value.replaceText,
                                  findStage.value.caseSensitive, findStage.value.matchWholeWord)
    {
      SearchWord(findStage, false, true);
    }

    method OnFindAndReplaceAll(findStage: Option<FindFields>)
      requires Valid()
      modifies selected
      ensures Valid()
      ensures findStage.None? || selected == null ==> selected == null || unchanged(selected)
      ensures findStage.Some? && selected != null ==>
                ReplacedAll(selected, findStage.value.findText, findStage.value.replaceText,
                            findStage.value.caseSensitive, findStage.value.matchWholeWord)
    {
      SearchWord(findStage, true, true);
    }

    /** `onCountEvent`: an empty find text clears the label; otherwise the label shows the count. */
    method OnCountEvent(findStage: Option<FindFields>)
      requires Valid()
      modifies this`findLabel
      ensures findStage.None? || selected == null ==> findLabel == old(findLabel)
      ensures findStage.Some? && selected != null && findStage.value.findText == [] ==> findLabel == []
      ensures findStage.Some? && selected != null && findStage.value.findText != [] ==>
                var f := findStage.value;
                findLabel == CountLabel(|Matches(CreateRegexPattern(f.findText, f.caseSensitive, f.matchWholeWord),
                                                 selected.text, 0)|)
    {
      if findStage.None? || selected == null {
        return;
      }
      var text := selected.text;
      var f := findStage.value;
      if f.findText == [] {
        findLabel := [];
        return;
      }
      var count := CountMatches(CreateRegexPattern(f.findText, f.caseSensitive, f.matchWholeWord), text);
      findLabel := CountLabel(count);
    }

    /** `cutOrCopyToClipboard`: the selection goes to the clipboard; a cut also removes it everywhere. */
    method CutOrCopyToClipboard(isCutOperation: bool)
      requires Valid()
      modifies this`clipboard, selected
      ensures Valid()
      ensures selected == null ==> clipboard == old(clipboard)
      ensures selected != null ==> clipboard == Some(old(selected.SelectedText()))
      ensures selected != null && isCutOperation ==> RemovedSelection(selected)
      ensures selected != null && !isCutOperation ==> unchanged(selected)
    {
      if selected == null {
        return;
      }
      var selectedText := selected.SelectedText();
      if isCutOperation {
        selected.SetText(Replace(selected.text, selectedText, []));
      }
      clipboard := Some(selectedText);
    }

    method OnCutEvent()
      requires Valid()
      modifies this`clipboard, selected
      ensures Valid()
      ensures selected != null ==> clipboard == Some(old(selected.SelectedText())) && RemovedSelection(selected)
      ensures selected == null ==> clipboard == old(clipboard)
    {
      CutOrCopyToClipboard(true);
    }

    method OnCopyEvent()
      requires Valid()
      modifies this`clipboard
      ensures selected != null ==> clipboard == Some(selected.SelectedText())
      ensures selected == null ==> clipboard == old(clipboard)
    {
      if selected == null {
        return;
      }
      clipboard := Some(selected.SelectedText());
    }

    /** `onPasteEvent`: without a tab or without a clipboard string nothing happens. */
    method OnPasteEvent()
      requires Valid()
      modifies selected
      ensures Valid()
      ensures selected != null && clipboard.Some? ==> Pasted(selected, clipboard.value)
      ensures selected != null && clipboard.None? ==> unchanged(selected)
    {
      if selected == null || clipboard.None? {
        return;
      }
      var clipboardText := clipboard.value;
      var text := selected.text;
      var position := selected.caret;
      selected.SetText(text[..position] + clipboardText + text[position..]);
      selected.PositionCaret(position);
    }

    /** `onDeleteEvent`: like a cut, without touching the clipboard. */
    method OnDeleteEvent()
      requires Valid()
      modifies selected
      ensures Valid()
      ensures selected != null ==> RemovedSelection(selected)
    {
      if selected == null {
        return;
      }
      var selectedText := selected.SelectedText();
      selected.SetText(Replace(selected.text, selectedText, []));
    }
  }
}
