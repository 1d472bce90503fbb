/**
 * What the tab controller derives from a tab's text: the line-number
 * column beside the text area, the paragraph / word / character status
 * line, and the listener that rewrites the text after a change in the
 * character encoding.
 */
module TabView {
  import opened Optional
  import opened JavaStrings
  import opened JavaSplit
  import opened Editing

  // ---------------------------------------------------------------------
  // Counting

  /**
   * `text.split("\n").length`: the number of line labels.  A text without
   * a newline has one; otherwise there is one label per paragraph, less
   * one for each trailing newline.
   */
  function LineCount(text: string): (n: nat)
    ensures !HasSep(text, IsNewline) ==> n == 1
    ensures HasSep(text, IsNewline) ==>
              n == if TrimTrailing(text, IsNewline) == [] then 0
                   else ParagraphCount(text) - (|text| - |TrimTrailing(text, IsNewline)|)
    ensures n <= ParagraphCount(text)
  {
    SplitLength(text, IsNewline);
    SepCountTrim(text, IsNewline);
    |Split(text, IsNewline)|
  }

  /**
   * `text.split("\\s+").length`: the word count on the status line.  It is
   * the number of words, plus one empty first word when the text starts
   * with whitespace; a text without whitespace counts 1 and whitespace
   * alone counts 0.
   */
  function WordCount(text: string): (n: nat)
    ensures !HasSep(text, IsJavaSpace) ==> n == 1
    ensures HasSep(text, IsJavaSpace) && TrimTrailing(text, IsJavaSpace) == [] ==> n == 0
    ensures HasSep(text, IsJavaSpace) && TrimTrailing(text, IsJavaSpace) != [] ==>
              n == Runs(text, IsJavaSpace) + (if IsJavaSpace(text[0]) then 1 else 0)
    ensures n <= Runs(text, IsJavaSpace) + 1
  {
    SplitRunsLength(text, IsJavaSpace);
    RunsTrim(text, IsJavaSpace);
    |SplitRuns(text, IsJavaSpace)|
  }

  /** `getParagraphs().size()`: one paragraph more than there are newlines. */
  function ParagraphCount(text: string): nat {
    SepCount(text, IsNewline) + 1
  }

  /**
   * The line count as Java's `split` gives it: 1 for a text without a
   * newline (the empty text included), 0 for a text of newlines only,
   * otherwise one more than the newlines before the trailing ones.
   */
  lemma LineCountCases(text: string)
    ensures !HasSep(text, IsNewline) ==> LineCount(text) == 1
    ensures HasSep(text, IsNewline) && TrimTrailing(text, IsNewline) == [] ==> LineCount(text) == 0
    ensures HasSep(text, IsNewline) && TrimTrailing(text, IsNewline) != [] ==>
              LineCount(text) == SepCount(TrimTrailing(text, IsNewline), IsNewline) + 1
  {
    SplitLength(text, IsNewline);
  }

  lemma {:induction false} TrimmedNoNewline(s: string)
    requires !HasSep(s, IsNewline)
    ensures TrimTrailing(s, IsNewline) == s && SepCount(s, IsNewline) == 0
  {
    NoSepSpaceOut(s, IsNewline);
    if s != [] {
      var init := s[..|s| - 1];
      assert !HasSep(init, IsNewline) by {
        forall i | 0 <= i < |init| ensures !IsNewline(init[i]) {
          assert init[i] == s[i];
        }
      }
      TrimmedNoNewline(init);
    }
  }

  /** The empty text has one line label; a text of newlines only has none. */
  lemma LineCountOfNewlines()
    ensures LineCount("") == 1
    ensures LineCount("\n\n") == 0
  {
    LineCountCases("");
    var t := "\n\n";
    assert IsNewline(t[0]) && IsNewline(t[1]) && t[..1] == "\n" && t[..1][..0] == [];
    LineCountCases(t);
  }

  /** A trailing newline adds no line label, unless the text was empty. */
  lemma TrailingNewlineAddsNoLine(text: string)
    requires text != []
    ensures LineCount(text + "\n") == LineCount(text)
  {
    var t := text + "\n";
    assert t[|t| - 1] == '\n' && t[..|t| - 1] == text;
    assert HasSep(t, IsNewline);
    LineCountCases(t);
    LineCountCases(text);
    if !HasSep(text, IsNewline) {
      TrimmedNoNewline(text);
    }
  }

  /** Without a trailing newline the line labels match the paragraphs one for one. */
  lemma LinesMatchParagraphs(text: string)
    requires text != [] && text[|text| - 1] != '\n'
    ensures LineCount(text) == ParagraphCount(text)
  {
    LineCountCases(text);
    if !HasSep(text, IsNewline) {
      TrimmedNoNewline(text);
    }
  }

  /**
   * The word count as Java's `split` gives it: 1 for a text without
   * whitespace (the empty text included), 0 for whitespace only, otherwise
   * the number of words plus one empty first word when the text starts
   * with whitespace.
   */
  lemma WordCountCases(text: string)
    ensures !HasSep(text, IsJavaSpace) ==> WordCount(text) == 1
    ensures HasSep(text, IsJavaSpace) && TrimTrailing(text, IsJavaSpace) == [] ==> WordCount(text) == 0
    ensures HasSep(text, IsJavaSpace) && TrimTrailing(text, IsJavaSpace) != [] ==>
              WordCount(text) == Runs(TrimTrailing(text, IsJavaSpace), IsJavaSpace) +
                                 (if IsJavaSpace(text[0]) then 1 else 0)
  {
    SplitRunsLength(text, IsJavaSpace);
  }

  /** The empty text counts one word; blanks alone count none. */
  lemma WordCountOfBlanks()
    ensures WordCount("") == 1
    ensures WordCount("  ") == 0
  {
    WordCountCases("");
    WordCountCases("  ");
    assert IsJavaSpace("  "[0]);
  }

  /** "a b" counts two words, and so does " a": the leading blank opens an empty first word. */
  lemma WordCountLeadingBlank()
    ensures WordCount("a b") == 2
    ensures WordCount(" a") == 2
  {
    var ab := "a b";
    assert IsJavaSpace(ab[1]) && !IsJavaSpace(ab[0]) && !IsJavaSpace(ab[2]);
    WordCountCases(ab);
    assert ab[..2] == "a " && "a "[..1] == "a";
    assert Runs(ab, IsJavaSpace) == 2;
    var sa := " a";
    assert IsJavaSpace(sa[0]) && !IsJavaSpace(sa[1]);
    WordCountCases(sa);
    assert sa[..1] == " ";
    assert Runs(sa, IsJavaSpace) == 1;
  }

  // ---------------------------------------------------------------------
  // Labels

  const LinePad: string := "    "

  /** The label of line `i` in the line-number column. */
  function LineLabel(i: nat): (shown: string)
    ensures |shown| > |LinePad| && shown[..|LinePad|] == LinePad
    ensures AllDigits(shown[|LinePad|..]) && ParseDecimal(shown[|LinePad|..]) == i
    ensures shown[|LinePad|] == '0' ==> i == 0
  {
    DecimalRoundTrip(i);
    var shown := LinePad + Decimal(i);
    assert shown[|LinePad|..] == Decimal(i);
    shown
  }

  const ParagraphTag: string := "Paragraph: "
  const WordsTag: string := "   |   Words: "
  const CharactersTag: string := "   |   Characters: "

  function CharactersPart(chars: nat): string {
    CharactersTag + Decimal(chars)
  }

  function WordsPart(words: nat, chars: nat): string {
    WordsTag + (Decimal(words) + CharactersPart(chars))
  }

  /** The length of the run of decimal digits `s` starts with. */
  function DigitPrefix(s: string): (n: nat)
    ensures n <= |s| && AllDigits(s[..n])
    ensures n < |s| ==> !('0' <= s[n] <= '9')
  {
    if s == [] || !('0' <= s[0] <= '9') then 0
    else
      var n := 1 + DigitPrefix(s[1..]);
      assert s[..n] == [s[0]] + s[1..][..n - 1];
      n
  }

  lemma {:induction false} DigitPrefixOf(a: string, x: string)
    requires AllDigits(a) && (x == [] || !('0' <= x[0] <= '9'))
    ensures DigitPrefix(a + x) == |a|
  {
    if a != [] {
      assert (a + x)[1..] == a[1..] + x;
      DigitPrefixOf(a[1..], x);
    }
  }

  /**
   * Reads `tag`, then a number written without a leading zero: the number
   * and what follows it.
   */
  function ReadField(tag: string, s: string): Option<(nat, string)> {
    if |tag| <= |s| && s[..|tag|] == tag then
      var rest := s[|tag|..];
      var n := DigitPrefix(rest);
      if n == 0 || (n > 1 && rest[0] == '0') then None else Some((ParseDecimal(rest[..n]), rest[n..]))
    else None
  }

  /** Reads the three numbers back from a status line. */
  function ReadStatus(shown: string): Option<(nat, nat, nat)> {
    match ReadField(ParagraphTag, shown)
    case None => None
    case Some((p, r1)) =>
      match ReadField(WordsTag, r1)
      case None => None
      case Some((w, r2)) =>
        match ReadField(CharactersTag, r2)
        case None => None
        case Some((c, r3)) => if r3 == [] then Some((p, w, c)) else None
  }

  lemma ReadFieldOf(tag: string, n: nat, x: string)
    requires x == [] || !('0' <= x[0] <= '9')
    ensures ReadField(tag, tag + (Decimal(n) + x)) == Some((n, x))
  {
    var s := tag + (Decimal(n) + x);
    assert s[..|tag|] == tag && s[|tag|..] == Decimal(n) + x;
    DigitPrefixOf(Decimal(n), x);
    assert (Decimal(n) + x)[..|Decimal(n)|] == Decimal(n);
    assert (Decimal(n) + x)[|Decimal(n)|..] == x;
    DecimalRoundTrip(n);
  }

  /** The status line `updateLabel` writes; the three numbers read back from it. */
  function StatusText(paragraphs: nat, words: nat, chars: nat): (shown: string)
    ensures |ParagraphTag| < |shown| && shown[..|ParagraphTag|] == ParagraphTag
    ensures ReadStatus(shown) == Some((paragraphs, words, chars))
  {
    ReadFieldOf(CharactersTag, chars, []);
    assert CharactersTag + (Decimal(chars) + []) == CharactersPart(chars);
    ReadFieldOf(WordsTag, words, CharactersPart(chars));
    ReadFieldOf(ParagraphTag, paragraphs, WordsPart(words, chars));
    ParagraphTag + (Decimal(paragraphs) + WordsPart(words, chars))
  }

  /** The status line determines the three numbers it shows. */
  lemma StatusTextInjective(p: nat, w: nat, c: nat, p': nat, w': nat, c': nat)
    requires StatusText(p, w, c) == StatusText(p', w', c')
    ensures p == p' && w == w' && c == c'
  {
    assert ReadStatus(StatusText(p, w, c)) == ReadStatus(StatusText(p', w', c'));
  }

  // ---------------------------------------------------------------------
  // The widgets the controller writes to

  /** The column of line-number labels beside a text area. */
  class LineNumberBox {
    var labels: seq<string>

    constructor ()
      ensures labels == []
    {
      labels := [];
    }
  }

  /** The status bar's information label. */
  class Label {
    var shown: string

    constructor ()
      ensures shown == []
    {
      shown := [];
    }
  }

  class TabController {
    /** The line-number column of the tab created last. */
    var vBox: LineNumberBox?
    /** The result of looking up the information label in the scene; null when it is missing. */
    var infoLabel: Label?

    /** `updateLineNumber`: the column is cleared, then holds the labels of lines 1 to N in order. */
    static method UpdateLineNumber(area: TextArea, lineNumber: LineNumberBox)
      modifies lineNumber
      ensures |lineNumber.labels| == LineCount(area.text)
      ensures forall k :: 0 <= k < |lineNumber.labels| ==> lineNumber.labels[k] == LineLabel(k + 1)
    {
      lineNumber.labels := [];
      var totalLines := |Split(area.text, IsNewline)|;
      var i := 1;
      while i <= totalLines
        invariant 1 <= i <= totalLines + 1
        invariant |lineNumber.labels| == i - 1
        invariant forall k :: 0 <= k < |lineNumber.labels| ==> lineNumber.labels[k] == LineLabel(k + 1)
      {
        lineNumber.labels := lineNumber.labels + [LineLabel(i)];
        i := i + 1;
      }
    }

    /** `updateLabel`: nothing is written when the label is missing. */
    method UpdateLabel(paragraphCount: nat, wordCount: nat, charCount: nat)
      modifies infoLabel
      ensures infoLabel != null ==> infoLabel.shown == StatusText(paragraphCount, wordCount, charCount)
    {
      if infoLabel == null {
        return;
      }
      infoLabel.shown := StatusText(paragraphCount, wordCount, charCount);
    }

    /** The key-typed handler: paragraphs, words and characters of the text. */
    method OnKeyTyped(area: TextArea)
      modifies infoLabel
      ensures infoLabel != null ==>
                infoLabel.shown == StatusText(ParagraphCount(area.text), WordCount(area.text), |area.text|)
    {
      var paragraphCount := ParagraphCount(area.text);
      var words := SplitRuns(area.text, IsJavaSpace);
      UpdateLabel(paragraphCount, |words|, |area.text|);
    }

    /**
     * `handlePaste`, once the toolkit has run it: when the clipboard holds
     * text, the line numbers are redrawn in the column of the tab created
     * last and the status line is updated.  That column must exist: the
     * source dereferences it without a check.
     */
    method HandlePaste(area: TextArea, clipboardHasText: bool)
      requires clipboardHasText ==> vBox != null
      modifies vBox, infoLabel
      ensures clipboardHasText ==>
                |vBox.labels| == LineCount(area.text) &&
                forall k :: 0 <= k < |vBox.labels| ==> vBox.labels[k] == LineLabel(k + 1)
      ensures clipboardHasText && infoLabel != null ==>
                infoLabel.shown == StatusText(ParagraphCount(area.text), WordCount(area.text), |area.text|)
      ensures !clipboardHasText ==> (vBox != null ==> unchanged(vBox)) && (infoLabel != null ==> unchanged(infoLabel))
    {
      if !clipboardHasText {
        return;
      }
      UpdateLineNumber(area, vBox);
      var paragraphCount := ParagraphCount(area.text);
      var words := SplitRuns(area.text, IsJavaSpace);
      UpdateLabel(paragraphCount, |words|, |area.text|);
    }

    /**
     * The text listener, after the line numbers are redrawn: `converted`
     * is the text re-encoded in the current character encoding.  The
     * area is rewritten only when that differs from its text, and never
     * with more characters than it has.
     */
    static method OnTextChanged(area: TextArea, lineNumber: LineNumberBox, converted: string)
      requires area.Valid()
      modifies area, lineNumber
      ensures area.Valid()
      ensures |lineNumber.labels| == LineCount(old(area.text))
      ensures forall k :: 0 <= k < |lineNumber.labels| ==> lineNumber.labels[k] == LineLabel(k + 1)
      ensures |area.text| <= |old(area.text)|
      ensures converted == old(area.text) ==> unchanged(area)
      ensures converted != old(area.text) && |converted| <= |old(area.text)| ==> area.text == converted
      ensures converted != old(area.text) && |converted| > |old(area.text)| ==>
                area.text == converted[..|old(area.text)|]
      ensures converted != old(area.text) ==> area.caret == |area.text| && area.anchor == area.caret
    {
      UpdateLineNumber(area, lineNumber);
      if converted != area.text {
        if |converted| <= |area.text| {
          area.ReplaceText(0, |area.text|, converted);
        } else {
          area.ReplaceText(0, |area.text|, converted[..|area.text|]);
        }
      }
    }
  }
}
