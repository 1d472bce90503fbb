# TextEditor find engine, edit actions and registries in Dafny

This project models the logic inside the JavaFX text editor: how it finds, replaces and counts text, and how it cuts, copies, pastes and deletes. It also models how a tab reports its lines and words, how the in-memory registries of open files and of text history are kept, and how menu items get their ids. Everything is stated on Dafny values and proved with the Dafny verifier.

## Modules

- `JavaStrings` (`java_strings.dfy`) covers the string library calls the editor makes:
  - `toLowerCase`/`toUpperCase` on Latin-1 letters;
  - `equalsIgnoreCase`, `StringUtils.contains` and `containsIgnoreCase`;
  - `String.replace(CharSequence, CharSequence)`;
  - `Integer.toString` with its inverse `parseInt`.
- `JavaSplit` (`java_split.dfy`) models `String.split` for the regexes `\s`, `\s+` and `\n`, with Java's rules:
  - a text without a separator splits into itself, so `""` gives `[""]`;
  - a leading separator gives an empty first piece;
  - trailing empty pieces are dropped.

  It also models `String.join`.
- `Search` (`search.dfy`) holds the find engine:
  - the pattern built by `createRegexPattern`, which quotes the find text and optionally adds `\b…\b` and `(?i)`;
  - `MatchAt`, its meaning at a position;
  - `FindFrom`, the leftmost-match scan of `Matcher.find`;
  - `Locate`, the caret-relative search;
  - `Matches`, the successive non-overlapping matches, and `CountMatches`, the counting loop;
  - the token test of replace-all (`replaceIfMatch`) and its in-place loop over the token array.
- `Editing` (`editing.dfy`) models two classes:
  - `TextArea`: the widget state the controller reads and writes (text, caret, selection anchor);
  - `EventController`: find next, find and replace, replace all, count, and cut / copy / paste / delete.

  It also names new tabs.
- `TabView` (`tab_view.dfy`) covers the tab controller:
  - line counting and the line-number column;
  - the paragraph / word / character status line;
  - the text listener that truncates a re-encoded text.
- `Registries` (`registries.dfy`) models the open-file maps of `TextFileController` and of the two `ModelController`s, and the history map of `HistoricalController`.
- `MenuItems` (`menu_items.dfy`) derives menu-item ids.
- `Optional` (`option.dfy`) defines `Option`, which stands for Java's `null`.

## Behaviour worth knowing

The model follows the code. These behaviours are easy to get wrong from the user interface alone:

- **Count.** It is a contiguous regex scan over the whole text, not a token count.
  - "cat catalog cat" counts 2 whole-word matches and 3 substring matches (`CountWholeWordExample`, `CountSubstringExample`).
  - An empty find text clears the label. It does not report 0.
- **Replace all.** It splits on single whitespace characters (`\s`), not on runs.
  - Runs of spaces survive as empty tokens: "a   b" stays "a   b" when none of its tokens matches (`ReplaceAllKeepsSpaceRuns`).
  - Every other whitespace character becomes one space.
  - Trailing whitespace is dropped.
  - `ReplaceAllWithoutMatch` states this exactly.
- **Find and replace.** It selects the range the match occupied before the splice, clamped to the new text. The caret is not left after the inserted text.
- **Empty find text on find next / find and replace.** It is not rejected.
  - Without whole-word matching it matches the empty string at the caret (`EmptyFindTextMatchesAtCaret`), and a non-empty replace text is then inserted there.
  - With whole-word matching, `\b\b` matches at the first word boundary of the tail. That may lie after the caret, or nowhere: on the tail " " nothing is found and the caret goes back to 0 (`EmptyFindTextWholeWord`).
- **Find next after a whole-word match.** The search runs on the tail after the caret, so `\b` cannot see the character before it. Find next can then miss a whole-word match that count reports, and can report a "whole word" that is only the end of a word (see Findings). The controller models this tail search (`Search.Locate`). `Search.FindNextInText` is the corrected alternative that searches the whole text from the caret; it agrees with `Locate` without whole-word matching (`LocateIsFindNextInText`).
- **Case-insensitive search.** `(?i)` without `UNICODE_CASE` folds ASCII letters only. Replace-all's `equalsIgnoreCase` / `containsIgnoreCase` also fold accented Latin-1 letters (`RegexFoldingIsNarrower`).
- **Cut and delete.** They remove every occurrence of the selected text from the whole text, not only the selection.
- **Paste's line numbers.** `handlePaste` redraws the line numbers of the tab created last (the controller's `vBox` field), whichever tab received the paste.

## Toolkit behaviour assumed

These toolkit facts are assumed, not proved:

- `setText` puts the caret and the anchor at 0.
- `positionCaret(p)` is `selectRange(p, p)`.
- `selectRange` clamps both ends to the text length.
- `replaceText` leaves the caret after the inserted text.
- `getParagraphs().size()` is the number of newlines plus one.
- `getSelectedText()` is the text between anchor and caret.

## Model

| member | source | states |
|---|---|---|
| `JavaStrings.ToLowerChar` | src/main/java/org/texteditor/viewers/menu/MenuItemBuild.java:25 | lower-casing leaves no upper-case Latin-1 letter and moves an upper-case one 32 code points up; anything else is unchanged |
| `JavaStrings.ToUpperChar` | src/main/java/org/texteditor/controllers/EventController.java:622 | the converse mapping used by `equalsIgnoreCase` |
| `JavaStrings.LowerCase` | src/main/java/org/texteditor/viewers/menu/MenuItemBuild.java:25 | `toLowerCase` keeps the length and lower-cases each character on its own |
| `JavaStrings.EqualsIgnoreCaseReflexive` | src/main/java/org/texteditor/controllers/EventController.java:622 | every token equals itself ignoring case |
| `JavaStrings.EqualImpliesContains` | src/main/java/org/texteditor/controllers/EventController.java:616-626 | a token equal to the find text also contains it, with and without case |
| `JavaStrings.ContainsImpliesContainsIgnoreCase` | src/main/java/org/texteditor/controllers/EventController.java:619-628 | a case-sensitive containment is also a case-insensitive one |
| `JavaStrings.EqualsIgnoreCase` | src/main/java/org/texteditor/controllers/EventController.java:622 | `equalsIgnoreCase` holds for equal strings and only for strings of the same length |
| `JavaStrings.Contains` | src/main/java/org/texteditor/controllers/EventController.java:619 | `StringUtils.contains` holds only when the find text fits, and holds whenever it is a prefix or a suffix of the token |
| `JavaStrings.ContainsIgnoreCase` | src/main/java/org/texteditor/controllers/EventController.java:625 | `containsIgnoreCase` holds only when the find text fits, and always for the empty find text |
| `JavaStrings.ReplaceEmptyByEmpty` | src/main/java/org/texteditor/controllers/EventController.java:94 | `text.replace("", "")` gives the text back, so cutting an empty selection changes nothing |
| `JavaStrings.Replace` | src/main/java/org/texteditor/controllers/EventController.java:94 | `replace` with a non-empty target never lengthens the text when the replacement is no longer than the target, and keeps the length when both have the same length |
| `JavaStrings.ReplaceLength` | src/main/java/org/texteditor/controllers/EventController.java:94 | `replace` changes the length by the length difference once per occurrence it rewrites |
| `JavaStrings.ReplaceWithoutOccurrence` | src/main/java/org/texteditor/controllers/EventController.java:152 | without an occurrence of the target, `replace` returns the text unchanged |
| `JavaStrings.OccurrenceIsCounted` | src/main/java/org/texteditor/controllers/EventController.java:152 | any occurrence of the target anywhere in the text is found by `replace`'s left-to-right scan |
| `JavaStrings.RemoveOccurrences` | src/main/java/org/texteditor/controllers/EventController.java:152 | removing every occurrence of a target that occurs somewhere shortens the text by the target's length per occurrence, and by at least that length once |
| `JavaStrings.ReplaceOneChar` | src/main/java/org/texteditor/viewers/menu/MenuItemBuild.java:40 | replacing one character by another maps the text position by position |
| `JavaStrings.Decimal` | src/main/java/org/texteditor/controllers/EventController.java:577 | the decimal form of a count is a non-empty digit string without a leading zero |
| `JavaStrings.DecimalRoundTrip` | src/main/java/org/texteditor/controllers/EventController.java:577 | parsing the decimal form gives the number back |
| `JavaStrings.DecimalInjective` | src/main/java/org/texteditor/controllers/TabController.java:156 | different numbers have different decimal forms |
| `JavaSplit.TrimTrailing` | src/main/java/org/texteditor/controllers/EventController.java:595 | trimming trailing separators gives a prefix that does not end in a separator, and only separators were cut |
| `JavaSplit.DropTrailingEmpty` | src/main/java/org/texteditor/controllers/EventController.java:595 | `split` keeps a prefix of the raw pieces, never ends in an empty piece, and drops only empty pieces |
| `JavaSplit.SpaceOut` | src/main/java/org/texteditor/controllers/EventController.java:601 | the rendering replaces each separator by one space and keeps every other character in place |
| `JavaSplit.Join` | src/main/java/org/texteditor/controllers/EventController.java:601 | `String.join` of no pieces is empty; otherwise the first piece opens the result and the last one closes it |
| `JavaSplit.RawSplit` | src/main/java/org/texteditor/controllers/EventController.java:595 | there is always at least one raw piece and none holds a separator |
| `JavaSplit.RunSplit` | src/main/java/org/texteditor/controllers/TabController.java:227 | pieces between separator runs hold no separator, the middle ones are never empty, and the last is empty exactly when the text ends in a separator |
| `JavaSplit.Split` | src/main/java/org/texteditor/controllers/EventController.java:595 | no piece of `split("\\s")` holds whitespace, there is at most one piece more than separators, a last piece after the first is never empty, and no pieces at all only when the text holds a separator |
| `JavaSplit.SplitRuns` | src/main/java/org/texteditor/controllers/TabController.java:227 | no piece of `split("\\s+")` holds whitespace and only the first piece can be empty |
| `JavaSplit.RawSplitCount` | src/main/java/org/texteditor/controllers/EventController.java:595 | before trailing pieces are dropped, there is one piece more than separators |
| `JavaSplit.JoinRawSplit` | src/main/java/org/texteditor/controllers/EventController.java:601 | joining the raw pieces with " " turns each separator into a space |
| `JavaSplit.DropTrailingRaw` | src/main/java/org/texteditor/controllers/EventController.java:595 | dropping trailing empty pieces equals splitting the text without its trailing separators |
| `JavaSplit.NoSepSpaceOut` | src/main/java/org/texteditor/controllers/EventController.java:595 | a text without separators is left as it is by the rendering and by trimming |
| `JavaSplit.SplitJoinRendering` | src/main/java/org/texteditor/controllers/EventController.java:595-601 | `join(" ", split("\\s"))` turns each whitespace character into a space and drops trailing whitespace; runs are not collapsed |
| `JavaSplit.SplitLength` | src/main/java/org/texteditor/controllers/TabController.java:153 | closed form of the split length: 1 without separators, 0 for separators only, otherwise one more than the separators before the trailing ones |
| `JavaSplit.SepCountTrim` | src/main/java/org/texteditor/controllers/TabController.java:153 | trimming trailing separators lowers the separator count by exactly the number of characters cut |
| `JavaSplit.RunsTrim` | src/main/java/org/texteditor/controllers/TabController.java:227 | trailing separators start no word |
| `JavaSplit.RunSplitCount` | src/main/java/org/texteditor/controllers/TabController.java:227 | splitting on separator runs gives one piece per word, plus one at each end that is a separator |
| `JavaSplit.DropTrailingRuns` | src/main/java/org/texteditor/controllers/TabController.java:227 | dropping trailing empty pieces equals splitting on runs without the trailing separators |
| `JavaSplit.SplitRunsLength` | src/main/java/org/texteditor/controllers/TabController.java:138 | closed form of the `\s+` split length: 1 without whitespace, 0 for whitespace only, otherwise the words plus one when the text starts with whitespace |
| `JavaSplit.NoSepRawSplit` | src/main/java/org/texteditor/controllers/EventController.java:595 | a separator-free text is one piece |
| `JavaSplit.RawSplitAppendPiece` | src/main/java/org/texteditor/controllers/EventController.java:595 | a separator followed by a separator-free text adds exactly that text as a piece |
| `JavaSplit.RawSplitJoin` | src/main/java/org/texteditor/controllers/EventController.java:595-601 | raw splitting undoes joining with " " for separator-free tokens |
| `JavaSplit.SplitJoinRoundTrip` | src/main/java/org/texteditor/controllers/EventController.java:595-601 | `split` undoes `join` when the tokens hold no separator and the last one is not empty |
| `Search.TailBoundary` | src/main/java/org/texteditor/controllers/EventController.java:642-650 | on the tail `text[caret..]`, `\b` agrees with the whole text except at the caret, which is a boundary whenever a word character follows it |
| `Search.AsciiLower` | src/main/java/org/texteditor/controllers/EventController.java:751 | the regex folding maps only A-Z, and leaves no upper-case ASCII letter |
| `Search.RegexFoldingIsNarrower` | src/main/java/org/texteditor/controllers/EventController.java:751 | the regex's folding is contained in `equalsIgnoreCase`'s; 'É' and 'é' show the two differ |
| `Search.CreateRegexPattern` | src/main/java/org/texteditor/controllers/EventController.java:748-753 | the compiled pattern matches at a position exactly when the quoted find text occurs there, up to ASCII case when not case-sensitive, with word boundaries at both ends in whole-word mode |
| `Search.MatchAt` | src/main/java/org/texteditor/controllers/EventController.java:748-753 | a match lies inside the text and, in whole-word mode, sits between word boundaries |
| `Search.MatchSpan` | src/main/java/org/texteditor/controllers/EventController.java:748-753 | a match spans exactly the find text when case-sensitive, or the find text up to ASCII case otherwise, with word boundaries at both ends in whole-word mode |
| `Search.MismatchAt` | src/main/java/org/texteditor/controllers/EventController.java:749 | the find text is matched literally, so one differing character rules a position out |
| `Search.FindFrom` | src/main/java/org/texteditor/controllers/EventController.java:652 | `find()` returns a match at or after the start with none before it, or reports that no match exists from there on |
| `Search.FindFromLeftmost` | src/main/java/org/texteditor/controllers/EventController.java:652 | conversely, the leftmost match at or after the start is what `find()` returns |
| `Search.Locate` | src/main/java/org/texteditor/controllers/EventController.java:641-656 | the caret-relative search reports the leftmost match of the tail as a span `caret <= s <= e <= |text|` of the find text's length; it reports none exactly when the tail has no match |
| `Search.WholeWordJudgedOnTail` | src/main/java/org/texteditor/controllers/EventController.java:642-652 | with the caret after "x", whole-word "cat" is found in "xcat" though it is not a whole word of the text |
| `Search.EmptyFindTextMatchesAtCaret` | src/main/java/org/texteditor/controllers/EventController.java:526-546 | without whole-word matching, an empty find text is not rejected: it matches the empty span at the caret |
| `Search.EmptyFindTextWholeWord` | src/main/java/org/texteditor/controllers/EventController.java:642-658 | in whole-word mode an empty find text matches at the tail's first word boundary: from caret 0 in " a" at 1, and in "a " from caret 1 nowhere |
| `Search.After` | src/main/java/org/texteditor/controllers/EventController.java:675 | the next `find()` resumes strictly after the previous match's start |
| `Search.Matches` | src/main/java/org/texteditor/controllers/EventController.java:671-680 | the successive `find()` results are matches, in increasing order, not overlapping |
| `Search.MatchesComplete` | src/main/java/org/texteditor/controllers/EventController.java:675-678 | no match is missed: every matching position lies inside a reported match |
| `Search.MatchesBound` | src/main/java/org/texteditor/controllers/EventController.java:675-678 | non-empty matches cannot outnumber the room in the text |
| `Search.NoMatchesIff` | src/main/java/org/texteditor/controllers/EventController.java:671-680 | the count is zero exactly when the pattern matches nowhere |
| `Search.CountMatches` | src/main/java/org/texteditor/controllers/EventController.java:671-680 | the counting loop returns the number of successive matches |
| `Search.MatchesNext` | src/main/java/org/texteditor/controllers/EventController.java:675-678 | after each counted match, `find()` resumes at the next counted match, or finds nothing after the last |
| `Search.TailMatch` | src/main/java/org/texteditor/controllers/EventController.java:642-644 | without `\b`, a match in the tail after the caret is a match in the whole text shifted by the caret, and back |
| `Search.FindNextInText` | src/main/java/org/texteditor/controllers/EventController.java:642-651 | the corrected search over the whole text from the caret: the leftmost match at or after the caret, or none exactly when no match lies there |
| `Search.FindNextInTextVisitsMatches` | src/main/java/org/texteditor/controllers/EventController.java:651-656 | searching the whole text from the end of each counted match reports the next counted match, or nothing after the last, in every mode |
| `Search.LocateIsFindNextInText` | src/main/java/org/texteditor/controllers/EventController.java:642-651 | without whole-word matching the tail search and the whole-text search agree |
| `Search.FindNextVisitsMatches` | src/main/java/org/texteditor/controllers/EventController.java:646-658 | without whole-word matching, repeated find next from the end of each counted match reaches the next counted match; after the last one it finds nothing or stands at the end |
| `Search.WholeWordFindNextSkips` | src/main/java/org/texteditor/controllers/EventController.java:642-658 | whole-word "-x" counts two matches in "a-x-x", but find next from the end of the first finds nothing, while the whole-text search finds the second |
| `Search.ReplaceIfMatchSpec` | src/main/java/org/texteditor/controllers/EventController.java:615-629 | a token becomes the replace text as a whole exactly when it equals (whole word) or contains (otherwise) the find text, per the case flag; the looser settings replace whatever the stricter ones do |
| `Search.ReplaceIfMatch` | src/main/java/org/texteditor/controllers/EventController.java:615-629 | a token is either kept or becomes the replace text, and a token equal to the find text is always replaced |
| `Search.ReplaceEach` | src/main/java/org/texteditor/controllers/EventController.java:597-599 | replacing token by token keeps the number of tokens |
| `Search.ReplaceTokens` | src/main/java/org/texteditor/controllers/EventController.java:597-599 | the in-place loop leaves each array slot replaced by `replaceIfMatch` of its old token |
| `Editing.TextArea.constructor` | src/main/java/org/texteditor/controllers/TabController.java:92 | a new text area holds its content with the caret at the start |
| `Editing.TextArea.SelectedText` | src/main/java/org/texteditor/controllers/EventController.java:91 | the selected text is as long as the distance between anchor and caret, and empty exactly when they meet |
| `Editing.TextArea.SetText` | src/main/java/org/texteditor/controllers/EventController.java:94 | setting the text resets caret and selection to 0 |
| `Editing.TextArea.ReplaceText` | src/main/java/org/texteditor/controllers/EventController.java:653-654 | the range is replaced, everything around it kept, and the caret ends after the inserted text |
| `Editing.TextArea.SelectRange` | src/main/java/org/texteditor/controllers/EventController.java:656 | the selection becomes the given range, clamped to the text |
| `Editing.TextArea.PositionCaret` | src/main/java/org/texteditor/controllers/EventController.java:647 | the caret moves and the selection becomes empty |
| `Editing.FindAndReplaceExample` | src/main/java/org/texteditor/controllers/EventController.java:500-502 | find and replace of whole-word "foo" by "baz" in "foo bar foo" from caret 0 leaves "baz bar foo" with [0, 3) selected |
| `Editing.FindNextSkipsExample` | src/main/java/org/texteditor/controllers/EventController.java:642-658 | find next as written, whole-word "-x" in "a-x-x" from caret 3 (the end of the first counted match): the text is kept and the caret returns to 0 |
| `Editing.ReplaceAllText` | src/main/java/org/texteditor/controllers/EventController.java:589-603 | with a non-empty, whitespace-free replace text, splitting the result again gives exactly the replaced tokens |
| `Editing.ReplaceAllWithoutMatch` | src/main/java/org/texteditor/controllers/EventController.java:589-603 | when no token matches, replace-all still rewrites the text: whitespace becomes spaces and trailing whitespace goes |
| `Editing.ReplaceAllTokens` | src/main/java/org/texteditor/controllers/EventController.java:595-601 | replace-all keeps the token count and rewrites exactly the matching tokens |
| `Editing.RemoveSelectionEffect` | src/main/java/org/texteditor/controllers/EventController.java:152 | deleting a non-empty selection shortens the text by its length once per occurrence, at least once; an empty selection changes nothing |
| `Editing.CountWholeWordExample` | src/main/java/org/texteditor/controllers/EventController.java:671-680 | whole-word "cat" occurs twice in "cat catalog cat" |
| `Editing.CountSubstringExample` | src/main/java/org/texteditor/controllers/EventController.java:671-680 | substring "cat" occurs three times in "cat catalog cat" |
| `Editing.ReplaceAllExample` | src/main/java/org/texteditor/controllers/EventController.java:589-603 | replace-all of "cat" by "dog" gives "dog catalog dog" for whole words and "dog dog dog" for substrings |
| `Editing.ReplaceAllKeepsSpaceRuns` | src/main/java/org/texteditor/controllers/EventController.java:595-601 | "a   b" splits into "a", "", "", "b" and comes back from replace-all unchanged whenever none of those tokens matches the find text |
| `Editing.NewTabName` | src/main/java/org/texteditor/controllers/EventController.java:237-247 | the new tab is named "Sem título (N)" with N the number of open tabs, written without a leading zero |
| `Editing.LegacyNewTabName` | src/org/texteditor/controllers/EventController.java:214-221 | the older tree names it "Sem título (N+1)" |
| `Editing.CountLabel` | src/main/java/org/texteditor/controllers/EventController.java:577 | the count label reads "Total: N correspondência no arquivo.", N parses back to the count and has no leading zero |
| `Editing.EventController.SearchFromCaret` | src/main/java/org/texteditor/controllers/EventController.java:641-660 | at the end of the text or without a match at or after the caret only the caret moves, to 0; on a match the replacement (if non-empty) is spliced in and the pre-splice range is selected; the match is searched in the tail after the caret |
| `Editing.EventController.ReplaceAll` | src/main/java/org/texteditor/controllers/EventController.java:589-603 | an empty find text changes nothing; otherwise the text becomes the joined, token-replaced split and the caret goes to 0 |
| `Editing.EventController.SearchWord` | src/main/java/org/texteditor/controllers/EventController.java:526-547 | without a find window or a tab nothing happens; otherwise the caret-relative search or replace-all runs, with an empty replace text unless replacing |
| `Editing.EventController.OnNextFind` | src/main/java/org/texteditor/controllers/EventController.java:488-490 | find next never changes the text; without a find window or a tab nothing changes |
| `Editing.EventController.OnFindAndReplace` | src/main/java/org/texteditor/controllers/EventController.java:500-502 | find and replace is the caret-relative search with the replace text; without a find window or a tab nothing changes |
| `Editing.EventController.OnFindAndReplaceAll` | src/main/java/org/texteditor/controllers/EventController.java:512-514 | replace all is the token-based replace-all; without a find window or a tab nothing changes |
| `Editing.EventController.OnCountEvent` | src/main/java/org/texteditor/controllers/EventController.java:556-578 | an empty find text clears the label; otherwise the label shows the number of successive matches |
| `Editing.EventController.CutOrCopyToClipboard` | src/main/java/org/texteditor/controllers/EventController.java:85-99 | the clipboard receives the selection; a cut also removes every occurrence of it; a copy leaves the text area alone |
| `Editing.EventController.OnCutEvent` | src/org/texteditor/controllers/EventController.java:64-78 | cut puts the selection on the clipboard and removes every occurrence of it; without a tab nothing changes |
| `Editing.EventController.OnCopyEvent` | src/org/texteditor/controllers/EventController.java:83-94 | copy puts the selection on the clipboard and changes no text |
| `Editing.EventController.OnPasteEvent` | src/main/java/org/texteditor/controllers/EventController.java:118-138 | paste gives `text[..pos] + clip + text[pos..]` with the caret left at `pos`; without a clipboard string or a tab nothing changes |
| `Editing.EventController.OnDeleteEvent` | src/main/java/org/texteditor/controllers/EventController.java:143-153 | delete removes every occurrence of the selected text |
| `TabView.LineCountCases` | src/main/java/org/texteditor/controllers/TabController.java:153 | the line count is 1 without a newline (also for ""), 0 for newlines only, otherwise one more than the newlines before the trailing ones |
| `TabView.LineCountOfNewlines` | src/main/java/org/texteditor/controllers/TabController.java:153 | "" has one line label and "\n\n" none |
| `TabView.TrimmedNoNewline` | src/main/java/org/texteditor/controllers/TabController.java:153 | a text without a newline has nothing to trim and no newline to count |
| `TabView.TrailingNewlineAddsNoLine` | src/main/java/org/texteditor/controllers/TabController.java:153 | a trailing newline adds no line label to a non-empty text |
| `TabView.LinesMatchParagraphs` | src/main/java/org/texteditor/controllers/TabController.java:136-153 | when the text does not end in a newline, the line labels match the paragraph count |
| `TabView.LineCount` | src/main/java/org/texteditor/controllers/TabController.java:153 | the number of line labels is 1 without a newline, otherwise the paragraphs less one per trailing newline (0 for newlines only), never more than the paragraphs |
| `TabView.WordCount` | src/main/java/org/texteditor/controllers/TabController.java:227 | the word count is 1 without whitespace, 0 for whitespace only, otherwise the words plus one for leading whitespace, never more than the words plus one |
| `TabView.WordCountCases` | src/main/java/org/texteditor/controllers/TabController.java:227 | the word count is 1 without whitespace, 0 for whitespace only, otherwise the words plus an empty first word after leading whitespace |
| `TabView.WordCountOfBlanks` | src/main/java/org/texteditor/controllers/TabController.java:138 | "" counts one word and "  " none |
| `TabView.WordCountLeadingBlank` | src/main/java/org/texteditor/controllers/TabController.java:227 | "a b" and " a" both count two words |
| `TabView.LineLabel` | src/main/java/org/texteditor/controllers/TabController.java:156 | a line label is four spaces followed by digits that parse back to the line number, without a leading zero |
| `TabView.DigitPrefix` | src/main/java/org/texteditor/controllers/TabController.java:170-171 | the digit run at the start of a string is all digits and is followed by a non-digit or the end |
| `TabView.DigitPrefixOf` | src/main/java/org/texteditor/controllers/TabController.java:170-171 | a number written before a non-digit is read back to its full length |
| `TabView.ReadFieldOf` | src/main/java/org/texteditor/controllers/TabController.java:170-171 | a tag followed by a number and a non-digit reads back as that number and the rest |
| `TabView.StatusText` | src/main/java/org/texteditor/controllers/TabController.java:170-171 | the status line starts with "Paragraph: ", and reading it back (numbers without leading zeros) gives exactly the paragraph, word and character counts written |
| `TabView.StatusTextInjective` | src/main/java/org/texteditor/controllers/TabController.java:170-171 | the status line determines the paragraph, word and character counts it shows |
| `TabView.LineNumberBox.constructor` | src/main/java/org/texteditor/controllers/TabController.java:105 | a new line-number column is empty |
| `TabView.Label.constructor` | src/main/java/org/texteditor/controllers/TabController.java:168 | a new label shows nothing |
| `TabView.TabController.UpdateLineNumber` | src/main/java/org/texteditor/controllers/TabController.java:150-158 | the column is cleared and then holds exactly the labels of lines 1 to N in order, so updates never accumulate |
| `TabView.TabController.UpdateLabel` | src/main/java/org/texteditor/controllers/TabController.java:167-172 | the status line is written when the label exists; nothing is written otherwise |
| `TabView.TabController.OnKeyTyped` | src/main/java/org/texteditor/controllers/TabController.java:223-229 | on each key typed the status line shows paragraphs, `\s+` words and the text length |
| `TabView.TabController.HandlePaste` | src/main/java/org/texteditor/controllers/TabController.java:131-142 | when the clipboard holds text, the column of the tab created last (which must exist) gets the pasted tab's line labels and the status line is updated; otherwise nothing changes |
| `TabView.TabController.OnTextChanged` | src/main/java/org/texteditor/controllers/TabController.java:64-78 | the listener redraws the line numbers, labelling lines 1 to N in order; it rewrites the text only when the conversion differs, never making it longer, truncating a longer conversion to the current length, and then leaves the caret at the end with no selection |
| `Registries.Get` | src/org/texteditor/controllers/TextFileController.java:31-33 | `get` returns the stored record exactly when the id is present, null otherwise |
| `Registries.Put` | src/org/texteditor/controller/ModelController.java:11-14 | after `put` the key holds the new value and every other key is unchanged |
| `Registries.PutIfAbsent` | src/org/texteditor/controllers/TextFileController.java:20-23 | after `putIfAbsent` the key holds its old value if it had one, else the new value; a present key leaves the map unchanged; other keys are untouched |
| `Registries.ComputeIfAbsent` | src/org/texteditor/controllers/ModelController.java:20-23 | as `putIfAbsent`, with the value computed from the key only when it is absent |
| `Registries.ReplaceIf` | src/org/texteditor/controllers/HistoricalController.java:10-13 | the conditional `replace` keeps the key set, changes nothing unless the key currently holds the expected value, then stores the new value, and touches no other key |
| `Registries.Remove` | src/org/texteditor/controllers/HistoricalController.java:19-21 | after `remove` the key is absent and every other key is unchanged |
| `Registries.UpdateText` | src/org/texteditor/controllers/TextFileController.java:41-48 | the text update changes only the text of the record under the id, and no other entry |
| `Registries.UpdateSaved` | src/org/texteditor/controllers/TextFileController.java:57-64 | the save update sets path and text, marks the record saved, keeps uuid and name, and touches no other entry |
| `Registries.UpdateTextTwice` | src/org/texteditor/controllers/ModelController.java:41-48 | of two text updates the second wins |
| `Registries.UpdateTextAfterSave` | src/org/texteditor/controller/ModelController.java:20-36 | a text update after a save keeps the record saved with its path |
| `Registries.PutIfAbsentKeepsFirst` | src/org/texteditor/controllers/TextFileController.java:20-23 | adding under a registered uuid never overwrites: the first record stays |
| `Registries.ComputeIfAbsentIsPutIfAbsent` | src/org/texteditor/controllers/ModelController.java:20-23 | `computeIfAbsent` with a mapping that returns the record adds it exactly as `putIfAbsent` does |
| `Registries.PutReplacesFirst` | src/org/texteditor/controller/ModelController.java:11-14 | in the older registry, re-adding a uuid replaces the earlier record |
| `Registries.PutIfAbsentVersusPut` | src/org/texteditor/controller/ModelController.java:12-13 | `put` and `putIfAbsent` differ exactly when the uuid is registered with a different record |
| `Registries.OpenedFiles.constructor` | src/org/texteditor/controllers/TextFileController.java:13 | the registry starts empty |
| `Registries.OpenedFiles.AddTextFile` | src/org/texteditor/controllers/TextFileController.java:20-23 | adding is `putIfAbsent` under the uuid |
| `Registries.OpenedFiles.RequestTextFile` | src/org/texteditor/controllers/TextFileController.java:31-33 | the stored record, or null when absent |
| `Registries.OpenedFiles.UpdateTextFile` | src/org/texteditor/controllers/TextFileController.java:41-48 | requires the id to be present; the record gets the new text |
| `Registries.OpenedFiles.UpdateSavedTextFile` | src/org/texteditor/controllers/TextFileController.java:57-64 | requires the id to be present; the record gets path and text and is marked saved |
| `Registries.TemporaryFiles.constructor` | src/org/texteditor/controllers/ModelController.java:13 | the registry starts empty |
| `Registries.TemporaryFiles.AddTextFile` | src/org/texteditor/controllers/ModelController.java:20-23 | adding is `computeIfAbsent` under the uuid |
| `Registries.TemporaryFiles.RequestTextFile` | src/org/texteditor/controllers/ModelController.java:31-33 | the stored record, or null when absent |
| `Registries.TemporaryFiles.UpdateTextFile` | src/org/texteditor/controllers/ModelController.java:41-48 | requires the id to be present; the record gets the new text |
| `Registries.TemporaryFiles.UpdateSavedTextFile` | src/org/texteditor/controllers/ModelController.java:57-64 | requires the id to be present; the record gets path and text and is marked saved |
| `Registries.LegacyTemporaryFiles.constructor` | src/org/texteditor/controller/ModelController.java:9 | the registry starts empty |
| `Registries.LegacyTemporaryFiles.AddTextFile` | src/org/texteditor/controller/ModelController.java:11-14 | adding is `put` under the uuid, overwriting |
| `Registries.LegacyTemporaryFiles.RequestTextFile` | src/org/texteditor/controller/ModelController.java:16-18 | the stored record, or null when absent |
| `Registries.LegacyTemporaryFiles.UpdateTextFile` | src/org/texteditor/controller/ModelController.java:20-27 | requires the id to be present; the record gets the new text |
| `Registries.LegacyTemporaryFiles.UpdateSavedTextFile` | src/org/texteditor/controller/ModelController.java:29-36 | requires the id to be present; the record gets path and text and is marked saved |
| `Registries.UpdateHistoric` | src/org/texteditor/controllers/HistoricalController.java:10-13 | an existing id gets the new content; an absent id leaves the map unchanged; other ids are untouched |
| `Registries.RemoveHistoricIdempotent` | src/org/texteditor/controllers/HistoricalController.java:19-21 | removal deletes only that id, and removing twice is removing once |
| `Registries.InsertHistoricKeepsExisting` | src/org/texteditor/controllers/HistoricalController.java:15-17 | inserting never overwrites existing content and touches no other id |
| `Registries.HistoricalRegistry.constructor` | src/org/texteditor/controllers/HistoricalController.java:8 | the history starts empty |
| `Registries.HistoricalRegistry.UpdateHistoricContent` | src/org/texteditor/controllers/HistoricalController.java:10-13 | the conditional replace against the content just read |
| `Registries.HistoricalRegistry.InsertHistoric` | src/org/texteditor/controllers/HistoricalController.java:15-17 | `putIfAbsent` |
| `Registries.HistoricalRegistry.RemoveHistoric` | src/org/texteditor/controllers/HistoricalController.java:19-21 | `remove` |
| `Registries.HistoricalRegistry.GetHistoric` | src/org/texteditor/controllers/HistoricalController.java:23-25 | the content under the id, or null when absent |
| `MenuItems.MenuItemId` | src/main/java/org/texteditor/viewers/menu/MenuItemBuild.java:25 | the id is the label lower-cased with each space turned into '-', followed by "-item"; it is five characters longer than the label and never holds a space |
| `MenuItems.LoweredWithHyphens` | src/main/java/org/texteditor/viewers/menu/MenuItemBuild.java:25 | lower-casing then replacing " " by "-" works position by position |
| `MenuItems.CreateMenuItemWithShortcut` | src/main/java/org/texteditor/viewers/menu/MenuItemBuild.java:23-29 | the item shows the label, carries the derived id and the shortcut |
| `MenuItems.CreateMenuItem` | src/main/java/org/texteditor/viewers/menu/MenuItemBuild.java:38-43 | the item shows the label, carries the derived id and no shortcut |
| `MenuItems.BuildersAgreeOnId` | src/main/java/org/texteditor/viewers/menu/MenuItemBuild.java:40 | both builders derive the same id from the same label |
| `MenuItems.SaveAsItemId` | src/main/java/org/texteditor/viewers/menu/FileMenu.java:77 | "Salvar como" gets the id "salvar-como-item" |

## Findings

| source | as written | input that shows it | evidently intended | confidence | as-written member | corrected member |
|---|---|---|---|---|---|---|
| src/main/java/org/texteditor/controllers/EventController.java:642-651 | find next runs the matcher on the tail `text[caret..]`, so a whole-word `\b` at the caret cannot see the character before it | whole-word, case-sensitive "-x" in "a-x-x": count reports 2 matches (at 1 and 3), but find next from the end of the first (caret 3) finds nothing and the caret returns to 0 | search the whole text from the caret (`matcher.find(caret)`), so repeated find next visits every counted match | medium, not executed | `Search.WholeWordFindNextSkips` | `Search.FindNextInTextVisitsMatches` |

## Left out

- The older tree's `onPasteEvent` (src/org/texteditor/controllers/EventController.java:99-118) and `onDeleteEvent` (123-132) do the same things as the main tree's, so `Editing.EventController.OnPasteEvent` and `OnDeleteEvent` model both. Its `onCutEvent` and `onCopyEvent` are the rows cited above.
- Widget lookup is not modelled: finding the find window, its text fields and check boxes by id, and the selected tab. The model takes the find pane's values as a `FindFields` value (`None` when the window is not open) and the selected tab's text area as a field that may be null.
- The system clipboard is a field `clipboard: Option<string>`. The AWT and JavaFX clipboards are not modelled.
- `Platform.runLater` only defers the caret reset of the caret-relative search. The model performs that reset immediately.
- The text listener's conversion (`Main.convertText` with the current encoding) is a parameter of `OnTextChanged`. The listener firing again because of its own `replaceText` is not modelled.
- `setText` and `replaceText` in the `EventController` actions also fire the tab's text listener. The model states each action and the listener separately and does not compose the two.
- `TabView.TabController.HandlePaste`: the paste key filter is not modelled, and the handler runs as if `runLater` had already run it. It requires the column of the tab created last to exist when the clipboard holds text; the source dereferences it and would throw otherwise.
- Case mapping covers Latin-1 only. Other Unicode letters, and the few characters whose case mapping changes their length, are treated as uncased.
- 'ÿ' and 'µ' have upper-case partners outside Latin-1 (U+0178 and U+039C). The model treats them as uncased.
- `toLowerCase()` in `MenuItemBuild` uses the default locale. In a Turkish locale, for instance, 'I' lower-cases to a dotless ı. The model uses the locale-independent mapping.
- Strings are sequences of UTF-16 units; surrogate pairs are not treated specially.
- `\b` uses ASCII letters, digits and `_` as word characters. Java's `\b` also treats non-ASCII letters as word characters.
- The regex string that `createRegexPattern` builds (`\Q…\E`, `\b`, `(?i)`) is represented by its meaning (`Pattern`, `MatchAt`), not by its text.
- `Registries.OpenedFiles.UpdateTextFile`, `UpdateSavedTextFile` and their counterparts in the other two registries require the id to be present. For an absent id the source dereferences null and throws.
- Registry values are never null in the model. A null stored value, which would change how `putIfAbsent` and `replace` behave, is not modelled.
- A record's UUID is kept as its string form, the key the maps use.
- These are not part of this model:
  - file I/O, file choosers and temporary folders;
  - tab creation and closing;
  - undo / redo, which the text area does itself;
  - zoom, whose sizes are floating point;
  - menus and panes;
  - the older tree's `controller/TextFileController`, which is JSON and file handling.
