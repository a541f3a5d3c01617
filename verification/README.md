# Text preprocessing pipeline, modelled in Dafny

This project models the text-cleaning module `src/preprocessing/preprocessing.py`.
The module has seven string-to-string steps:

- `remove_url` deletes `https?://\S+` and `www\.\S+`.
- `remove_html` deletes the lazy match `<.*?>`.
- `remove_punctuation` deletes the characters of `string.punctuation`.
- `remove_stop_words` splits on whitespace, drops the stop words and joins the rest with single spaces.
- `remove_spaces` replaces each `\s+` run by one space.
- `remove_newlines` replaces each `'\n'` by a space.
- `to_lower` lower-cases the text.

A driver, `preprocess`, applies six of these steps in a fixed order. `to_lower` is not one of them.

Each step is modelled as a recursive function over `string` (`seq<char>`). Each regular expression becomes a dedicated left-to-right scanner:

- A match is found at the current position and deleted (or replaced), and scanning resumes after it.
- Otherwise the current character is kept.

`preprocess` reassigns `text` in a loop over a list of step functions. It is modelled as the method `Pipeline.Preprocess`, whose loop runs over a `seq<Step>`. The method is proved equal to the explicit composition `Pipeline.Cleaned`.

Modules:

- `Chars`: character classes. There is one `IsWhitespace` predicate, used for `\s`, `\S` and `str.split()`, checked against the listed characters of `str.isspace()`. `IsPunctuation` is the 32 characters of `string.punctuation`.
- `Seqs`: generic tools.
  - `IsSubsequence`: order-preserving deletion.
  - `Keep`: filtering by a predicate.
  - `LeadingRun`: the length of the longest prefix satisfying a predicate.
- `Url`, `Html`, `Punctuation`, `StopWords`, `Spaces`, `Newlines`, `Case`: one module per step.
- `Pipeline`: the step list (the constant `DefaultSteps`), the loop, and the properties of the composed pipeline.

## Model

| member | source | states |
|---|---|---|
| Url.SchemeLength | src/preprocessing/preprocessing.py:13 | the length is positive exactly when one of the literals `https://`, `http://`, `www.` starts the text and is followed by a non-whitespace character; the literal plus that character lie in the leading non-whitespace run. Because the match then spans that whole run (`Url.UrlLength`), the order in which the alternatives are tried does not change what is deleted |
| Url.UrlLength | src/preprocessing/preprocessing.py:13 | a match exists exactly when a URL starts here; it then spans the whole leading non-whitespace run, i.e. it runs to just before the next whitespace character or to the end |
| Url.RemoveUrl | src/preprocessing/preprocessing.py:13 | the substitution never lengthens the text |
| Url.RemoveUrlIsSubsequence | src/preprocessing/preprocessing.py:13 | the output is the input with characters deleted, order kept |
| Url.RemoveUrlKeepsHead | src/preprocessing/preprocessing.py:13 | one scanning step: where no URL starts, the first character is copied and the scan moves one character on |
| Url.RemoveUrlUnfold | src/preprocessing/preprocessing.py:13 | one scanning step: a match at the front, as long as `Url.UrlLength` says, is dropped whole; otherwise the first character is kept |
| Url.RemoveUrlKeepsPrefix | src/preprocessing/preprocessing.py:13 | when no URL starts in the first `i` positions, those `i` characters come out verbatim, ahead of the result for the rest; so every deleted span starts with `http://`, `https://` or `www.` |
| Url.RemoveUrlKeepsWhitespace | src/preprocessing/preprocessing.py:13 | the replacement is empty and a match holds no whitespace, so the whitespace characters of the output are exactly those of the input, in order; adjacent spaces are not merged |
| Url.RemoveUrlLeavesNoUrl | src/preprocessing/preprocessing.py:13 | no URL starts anywhere in the output |
| Url.RemoveUrlUnchanged | src/preprocessing/preprocessing.py:13 | a text in which no URL starts is returned unchanged |
| Url.RemoveUrlIdempotent | src/preprocessing/preprocessing.py:13 | applying the step twice equals applying it once |
| Url.RemoveUrlWithoutColonOrDot | src/preprocessing/preprocessing.py:13 | a text with neither ':' nor '.' is returned unchanged |
| Url.RemoveUrlSplitAtWhitespace | src/preprocessing/preprocessing.py:13 | cutting the text just after a whitespace character, the step may be applied to each side separately |
| Url.VisitExample | src/preprocessing/preprocessing.py:13 | "visit https://example.com now" becomes "visit  now", with both spaces kept |
| Html.LazyCloseLength | src/preprocessing/preprocessing.py:22 | the lazy `.*?>` stops at the first '>'; it matches exactly when a '>' comes before the first line feed, and no line feed or '>' lies before that '>' |
| Html.TagLength | src/preprocessing/preprocessing.py:22 | a match starts at '<' and ends at the first following '>', with no line feed between; there is a match exactly when a '>' comes after the '<' on the same line |
| Html.RemoveHtml | src/preprocessing/preprocessing.py:22 | the output is never longer than the input |
| Html.RemoveHtmlIsSubsequence | src/preprocessing/preprocessing.py:22 | the output is the input with characters deleted: nothing is inserted and the order is kept |
| Html.RemoveHtmlKeepsPrefix | src/preprocessing/preprocessing.py:22 | when no tag starts in the first `i` positions, those `i` characters come out verbatim, ahead of the result for the rest of the text |
| Html.RemoveHtmlKeepsFirst | src/preprocessing/preprocessing.py:22 | one scanning step, with "no tag here" given by `Html.TagLength`'s contract: the first character is copied and the scan moves one character on |
| Html.RemoveHtmlSkipsTag | src/preprocessing/preprocessing.py:22 | one scanning step, with the span given by `Html.TagLength`'s contract: a tag at the front, up to the first '>' on its line, is deleted whole and the scan resumes just after it |
| Html.BoldExample | src/preprocessing/preprocessing.py:22 | "<b>bold</b> text" becomes "bold text": both tags go, the text between and after them stays |
| Html.RemoveHtmlKeepsNewlines | src/preprocessing/preprocessing.py:22 | every line feed survives and none is added |
| Html.RemoveHtmlLeavesNoTag | src/preprocessing/preprocessing.py:22 | no surviving '<' is followed by a '>' on the same line |
| Html.RemoveHtmlUnchanged | src/preprocessing/preprocessing.py:22 | a text without such a '<' is returned unchanged |
| Html.RemoveHtmlIdempotent | src/preprocessing/preprocessing.py:22 | applying the step twice equals applying it once |
| Html.RemoveHtmlWithoutOpen | src/preprocessing/preprocessing.py:22 | a text without '<' is returned unchanged |
| Chars.PunctuationIsAsciiPunctuation | src/preprocessing/preprocessing.py:32 | the punctuation test holds for exactly the 32 characters of `string.punctuation` |
| Punctuation.RemovePunctuation | src/preprocessing/preprocessing.py:32 | no punctuation character survives, and the output is never longer |
| Punctuation.RemovePunctuationCounts | src/preprocessing/preprocessing.py:32 | exactly the punctuation is deleted: every other character occurs as often as in the input |
| Punctuation.RemovePunctuationIsSubsequence | src/preprocessing/preprocessing.py:32 | the remaining characters keep their order |
| Punctuation.RemovePunctuationConcat | src/preprocessing/preprocessing.py:32 | the deletion distributes over concatenation |
| Punctuation.RemovePunctuationUnchanged | src/preprocessing/preprocessing.py:32 | a text without punctuation is returned unchanged |
| Punctuation.RemovePunctuationIdempotent | src/preprocessing/preprocessing.py:32 | applying the step twice equals applying it once |
| Punctuation.RemovePunctuationKeepsWhitespace | src/preprocessing/preprocessing.py:32 | the whitespace characters are kept, in order |
| Chars.WhitespaceIsIsspace | src/preprocessing/preprocessing.py:47 | `IsWhitespace`, used for `str.split()` here and for `\s`/`\S` at lines 13 and 57, holds for exactly the 29 characters of `str.isspace()`, listed one by one |
| StopWords.Split | src/preprocessing/preprocessing.py:47 | `str.split()` yields non-empty tokens without whitespace |
| StopWords.SplitToken | src/preprocessing/preprocessing.py:47 | a token on its own splits into itself |
| StopWords.SplitAtWhitespace | src/preprocessing/preprocessing.py:47 | every whitespace character separates: the split of `a + [w] + b` is the split of `a` followed by the split of `b`. With `SplitToken` and the empty text this fixes the split of every text: each token is a whole maximal non-whitespace run, and runs of whitespace of any length give no empty token |
| StopWords.SplitLength | src/preprocessing/preprocessing.py:47 | consecutive tokens are separated by at least one character: the tokens' total length plus their number is at most the text's length plus one |
| StopWords.Join | src/preprocessing/preprocessing.py:48 | `" ".join` puts one separator between consecutive tokens and none at the ends: no tokens give the empty text, otherwise the length is the tokens' total length plus one per gap |
| StopWords.SplitJoin | src/preprocessing/preprocessing.py:47-48 | splitting tokens joined by single spaces gives the tokens back |
| StopWords.WithoutStopWords | src/preprocessing/preprocessing.py:48 | no token of the result is a stop word, and the result is never longer |
| StopWords.WithoutStopWordsCounts | src/preprocessing/preprocessing.py:48 | exactly the stop words are dropped: every other token occurs as often as in the input, compared by exact string equality |
| StopWords.WithoutStopWordsLength | src/preprocessing/preprocessing.py:48 | dropping tokens never adds characters: the kept tokens' total length plus their number is at most that of all tokens |
| StopWords.WithoutStopWordsIsSubsequence | src/preprocessing/preprocessing.py:48 | the kept tokens keep their order |
| StopWords.WithoutStopWordsKeepsAll | src/preprocessing/preprocessing.py:48 | tokens none of which is a stop word are all kept |
| StopWords.WithoutStopWordsIdempotent | src/preprocessing/preprocessing.py:48 | filtering twice equals filtering once, and tokens stay tokens |
| StopWords.RemoveStopWords | src/preprocessing/preprocessing.py:47-48 | the output is never longer than the input, and it is empty exactly when no token survives the filter |
| StopWords.RemoveStopWordsTokens | src/preprocessing/preprocessing.py:47-48 | the output's tokens are exactly the input's tokens minus the stop words, in order |
| StopWords.RemoveStopWordsShape | src/preprocessing/preprocessing.py:48 | the output has no leading, trailing or doubled whitespace, and its only whitespace is the plain space |
| StopWords.RemoveStopWordsIdempotent | src/preprocessing/preprocessing.py:47-48 | for a fixed stop-word set, applying the step twice equals applying it once |
| StopWords.RemoveStopWordsKeepsCharacters | src/preprocessing/preprocessing.py:47-48 | the output's non-whitespace characters are a subsequence of the input's |
| Spaces.RemoveSpaces | src/preprocessing/preprocessing.py:57 | the output is never longer, and is empty exactly when the input is |
| Spaces.RemoveSpacesCollapsesRuns | src/preprocessing/preprocessing.py:57 | the scanner agrees with a reference rule that maps each maximal whitespace run to one space character by character |
| Spaces.RemoveSpacesCollapsed | src/preprocessing/preprocessing.py:57 | the only whitespace left is the plain space, and no two whitespace characters are adjacent |
| Spaces.RemoveSpacesEnds | src/preprocessing/preprocessing.py:57 | leading and trailing runs are not trimmed: the output starts (ends) with whitespace exactly when the input does |
| Spaces.RemoveSpacesKeepsNonWhitespace | src/preprocessing/preprocessing.py:57 | the non-whitespace characters are exactly those of the input, in order |
| Spaces.RemoveSpacesUnchanged | src/preprocessing/preprocessing.py:57 | an already collapsed text is returned unchanged |
| Spaces.RemoveSpacesIdempotent | src/preprocessing/preprocessing.py:57 | applying the step twice equals applying it once |
| Newlines.RemoveNewlines | src/preprocessing/preprocessing.py:66 | same length; each line feed becomes a space and every other position is unchanged; no line feed is left |
| Newlines.RemoveNewlinesIdempotent | src/preprocessing/preprocessing.py:66 | applying the step twice equals applying it once |
| Newlines.RemoveNewlinesKeepsNonWhitespace | src/preprocessing/preprocessing.py:66 | the non-whitespace characters are unchanged, in order |
| Newlines.TwoLines | src/preprocessing/preprocessing.py:66 | "line1\nline2" becomes "line1 line2" |
| Chars.LowerChar | src/preprocessing/preprocessing.py:75 | 'A'..'Z' move 32 code points to 'a'..'z'; other characters are unchanged; no upper-case letter results |
| Case.ToLower | src/preprocessing/preprocessing.py:75 | same length, lower-cased character by character |
| Case.ToLowerIdempotent | src/preprocessing/preprocessing.py:75 | no upper-case letter is left, and lower-casing twice equals lower-casing once |
| Case.Mixed | src/preprocessing/preprocessing.py:75 | "MiXeD" becomes "mixed" |
| Pipeline.Apply | src/preprocessing/preprocessing.py:87 | calling one step function never lengthens the text, and every step except `to_lower` keeps the non-whitespace characters, with some deleted, in order |
| Pipeline.ApplyAll | src/preprocessing/preprocessing.py:86-87 | running a list of steps one after another, each on the previous result, never lengthens the text; with no `to_lower` in the list the non-whitespace characters are only deleted, never changed or reordered |
| Pipeline.Cleaned | src/preprocessing/preprocessing.py:84 | the composition of the six steps of the default list, in list order; the result is never longer than the input |
| Pipeline.Preprocess | src/preprocessing/preprocessing.py:84-89 | the loop over the step list returns the composition of `remove_url`, `remove_html`, `remove_stop_words`, `remove_punctuation`, `remove_newlines`, `remove_spaces`, in that order |
| Pipeline.DefaultStepsAreCleaned | src/preprocessing/preprocessing.py:84-87 | running the six-step list one step after another equals that composition |
| Pipeline.CleanedShape | src/preprocessing/preprocessing.py:84-89 | the final output contains no ASCII punctuation and no line feed; its only whitespace is single plain spaces |
| Pipeline.CleanedKeepsCharacters | src/preprocessing/preprocessing.py:84-89 | `to_lower` is not in the list (`DefaultSteps`, line 84) and every other step only deletes characters or rewrites whitespace, so the output's non-whitespace characters, case included, are a subsequence of the input's |
| Pipeline.SpacesAfterNewlines | src/preprocessing/preprocessing.py:84 | collapsing whitespace after replacing line feeds gives the same text as collapsing directly |
| Pipeline.StopWordBeforePunctuation | src/preprocessing/preprocessing.py:84 | stop words are removed before punctuation, so with "the" a stop word, "the, dog runs" becomes "the dog runs"; removing punctuation first would have given "dog runs" |

## Left out

- Downloading the NLTK stop-word corpus and reading its English list (src/preprocessing/preprocessing.py:41-45) are network and file I/O. The stop words are a `set<string>` parameter of every member that needs them.
- Regular expressions in general: the three patterns are modelled only through their dedicated scanners.
- `Chars.IsWhitespace` follows Python's `str.isspace()`, which includes U+001C..U+001F. The same predicate stands for the `\s` of the `regex` module. That module follows the Unicode White_Space property, which does not include U+001C..U+001F, so the two can differ on those four characters.
- Case.ToLower: lower-cases ASCII 'A'..'Z' only. Python's `str.lower()` also maps non-ASCII letters and can change the length of the text.
- Non-string arguments raise type errors in Python. They have no counterpart in a typed model.
