# Document conversion and upload checks of the Beetle-In-a-Box website

The website publishes issues of a magazine. Editors upload a Word document
(`.docx`) for an article's body, a second one for its citations, and images.
This project models the server-side utilities that turn those uploads into
the strings the site stores. It then proves what those strings look like.

- `utils/docx-utils.ts`:
  - `convertArticleDocx`: the document reader's HTML, cleaned, with every
    `<sup>` replaced by a numbered, clickable footnote marker (`fl1`, `fl2`, …).
  - `convertCitationsDocx`: the reader's HTML, cleaned, cut at every `<p>` and
    `</p>`. Blank pieces are dropped and the rest are trimmed. Each becomes a
    numbered citation block (`f1`, `f2`, …) that links back to its marker.
  - `convertPreviewDocx`: the reader's raw text, cleaned, with whitespace
    collapsed to single blanks and trimmed.
  - `cleanText`: HTML character references are decoded with `unescapeHtml`.
    Nine typographic characters are then replaced by ASCII (curly quotes,
    dashes, ellipsis, bullet, no-break space).
  - `generateFileName`: the article's file name. It is built from the first
    two words of its title that are not common words.
- `utils/file-upload.ts`:
  - `validateImageFile` and `validateDocxFile`: the MIME type and size checks
    on an upload, with their error messages.
  - `saveImage`: the file name and public URL given to a saved image.

Modules, one per concern:

| file | module | models |
|---|---|---|
| `wrappers.dfy` | `Wrappers` | `Option` and `Result` |
| `strings.dfy` | `Strings` | JavaScript's `\s`/`trim` whitespace set, `\w`, ASCII `toLowerCase`, `trimStart`/`trimEnd`/`trim`, `join`, decimal printing of integers |
| `text_utils.dfy` | `TextUtils` | `unescapeHtml` |
| `clean_text.dfy` | `TextCleaning` | `cleanText` (a `method` with the source's loop over the table) |
| `footnotes.dfy` | `Footnotes` | the counting and replacing loop of `convertArticleDocx` (a `method`) |
| `citations.dfy` | `Citations` | the split, filter and map of `convertCitationsDocx`, and its `forEach` accumulation (a `method`) |
| `preview.dfy` | `PreviewText` | `replace(/\s+/g, ' ').trim()` of `convertPreviewDocx` |
| `docx_convert.dfy` | `DocxConvert` | the three conversion entry points |
| `file_name.dfy` | `FileName` | `generateFileName` |
| `file_name_examples.dfy` | `FileNameExamples` | the titles of the unit tests of `generateFileName`, evaluated |
| `file_upload.dfy` | `FileUpload` | the two validators and the naming part of `saveImage` |

The document reader (the `mammoth` library) is a function-typed parameter. It
maps the uploaded bytes to the converted text, or to the message of the error
it threw. A thrown error becomes a `Failure` carrying the prefixed message.

Two details of `generateFileName` decide what it produces:

- It short-circuits only when the untrimmed title holds no literal blank
  `' '` (`utils/docx-utils.ts:117`). It does not test for whitespace of any
  kind after trimming. So `"Hello\tWorld"` takes the short-circuit and becomes
  `hello\tworld.html`.
- The punctuation filter keeps `\w` characters (`utils/docx-utils.ts:124`).
  These include `_`, not only letters and digits.

`cleanText` is not idempotent in general. Cleaning `&amp;amp;` gives
`&amp;`, and cleaning that again gives `&`. In this model, with its
one-pass decoder, `&amp;lt;` likewise gives `&lt;` and then `<`. Cleaning
twice equals cleaning once whenever the first decoding leaves no recognised
reference behind; the typographic replacements never create one.

## Model

| member | source | states |
|---|---|---|
| TextUtils.DecodeReference | tests/utils/text-utils.test.ts:5-12 | a recognised reference starts with `&`, is at least four characters long and lies within the text |
| TextUtils.Unescape | tests/utils/text-utils.test.ts:14-21 | decoding never makes the text longer |
| TextUtils.UnescapeReference | tests/utils/text-utils.test.ts:5-21 | each of the six references at the front decodes to its character, and the rest is decoded independently |
| TextUtils.UnescapePlain | tests/utils/text-utils.test.ts:23-27 | text without `&` passes through unchanged in front of whatever follows |
| TextUtils.UnescapeNoAmpersand | tests/utils/text-utils.test.ts:23-27 | a string without `&` is returned unchanged |
| TextUtils.UnescapeBareAmpersand | tests/utils/text-utils.test.ts:46-49 | an `&` that cannot start a known reference is kept |
| TextUtils.UnescapeUnknownNumeric | tests/utils/text-utils.test.ts:40-44 | a numeric reference whose first digit is not `3` is kept |
| TextUtils.UnescapeNoReference | tests/utils/text-utils.test.ts:29-38 | a string where no recognised reference starts anywhere is returned unchanged |
| TextUtils.UnescapeEachReference | tests/utils/text-utils.test.ts:5-12 | `&lt;`, `&gt;`, `&amp;`, `&quot;`, `&#39;` and `&apos;` decode to `<`, `>`, `&`, `"`, `'` and `'` |
| TextCleaning.ReplaceAll | utils/docx-utils.ts:106 | every character of the result is from the replacement text or is a character of the input other than the key; a text without the key is returned unchanged |
| TextCleaning.Substitute | utils/docx-utils.ts:105-107 | a character that is no key of the table stands for itself |
| TextCleaning.NormalizeWith | utils/docx-utils.ts:105-107 | a text holding no key of the table is returned unchanged |
| TextCleaning.Clean | utils/docx-utils.ts:90-110 | the cleaned text holds none of the nine typographic characters |
| TextCleaning.ReplacementsWellFormed | utils/docx-utils.ts:93-103 | the table's keys are non-ASCII and pairwise distinct and its replacement texts are ASCII, so no replacement brings back a key |
| TextCleaning.CleanText | utils/docx-utils.ts:90-110 | the loop of global replacements over the table computes the same text as decoding and then substituting each character through the whole table |
| TextCleaning.NormalizeEmptyTable | utils/docx-utils.ts:105-107 | with no entries the loop changes nothing |
| TextCleaning.ReplaceAllConcat | utils/docx-utils.ts:106 | a global replacement of one character distributes over concatenation |
| TextCleaning.SubstituteAvoids | utils/docx-utils.ts:105-107 | a character other than `key` is never substituted by text holding `key` when no replacement text holds it |
| TextCleaning.ReplaceStep | utils/docx-utils.ts:105-107 | one more iteration of the loop adds the next table entry to the substitution |
| TextCleaning.ReplaceHead | utils/docx-utils.ts:105-107 | one more global replace turns what the first entries make of a character into what one more entry makes of it |
| TextCleaning.SubstituteShape | utils/docx-utils.ts:105-107 | a character of a substitute is either the original, when it is no key, or comes from a replacement text |
| TextCleaning.SubstituteKey | utils/docx-utils.ts:93-107 | each key is replaced by its own text |
| TextCleaning.NormalizeConcat | utils/docx-utils.ts:105-107 | the substitution distributes over concatenation |
| TextCleaning.NormalizeRemovesKeys | utils/docx-utils.ts:105-107 | no key survives the substitution |
| TextCleaning.NormalizeIdempotent | utils/docx-utils.ts:105-107 | substituting twice gives the same as substituting once |
| TextCleaning.NormalizeReplacesEach | utils/docx-utils.ts:93-107 | each typographic character in the text is replaced by its ASCII text, and the context is cleaned independently |
| TextCleaning.NormalizeKeepsNoAmpersand | utils/docx-utils.ts:93-107 | the substitution introduces no `&` |
| TextCleaning.CleanIdempotent | utils/docx-utils.ts:90-110 | cleaning cleaned text changes nothing whenever decoding leaves no recognised reference anywhere in the text |
| TextCleaning.ReplacementTextsCannotContinueReference | utils/docx-utils.ts:93-103 | every replacement text is non-empty, starts with none of `#`, `;`, `a`-`z`, `0`-`9` and holds no `&` |
| TextCleaning.SubstituteHead | utils/docx-utils.ts:93-107 | the table turns a character into itself or into a text that cannot continue a reference |
| TextCleaning.NormalizePrefix | utils/docx-utils.ts:93-107 | a run of `#`, `;`, lower-case letters and digits at the front of the substituted text was already at the front of the text |
| TextCleaning.ReferenceBeforeNormalize | utils/docx-utils.ts:93-107 | a reference that starts at an `&` after the substitution already started there before it |
| TextCleaning.NoReferenceAfterAmpersand | utils/docx-utils.ts:93-107 | an `&` that starts no reference still starts none after the rest of the text is substituted |
| TextCleaning.NormalizeCreatesNoReference | utils/docx-utils.ts:93-107 | substituting the typographic characters never creates a recognised reference |
| TextCleaning.CleanNotIdempotent | utils/docx-utils.ts:90-110 | `&amp;amp;` is cleaned to `&amp;`, which is cleaned to `&`, and `&amp;lt;` to `&lt;`, which is cleaned to `<`, so cleaning twice can differ from cleaning once |
| TextCleaning.NormalizeAscii | utils/docx-utils.ts:93-107 | ASCII text holds no key, so the replacements leave it unchanged |
| TextCleaning.CleanToAscii | utils/docx-utils.ts:90-110 | text that decodes to ASCII is cleaned to exactly what it decodes to |
| Footnotes.LinkId | utils/docx-utils.ts:21 | the marker id is `fl` followed by at least one digit and digits only |
| Footnotes.TargetId | utils/docx-utils.ts:21 | the citation id is `f` followed by at least one digit and digits only |
| Footnotes.Tag | utils/docx-utils.ts:21 | the marker starts with `<sup ` and holds no other `<` |
| Footnotes.TagTextShape | utils/docx-utils.ts:21 | the marker text built around two ids without `<` starts with `<sup ` and holds no other `<` |
| Footnotes.Find | utils/docx-utils.ts:19-22 | the position found is the first `<sup>`; none is found only when there is none |
| Footnotes.LinkFootnotes | utils/docx-utils.ts:17-23 | counting the `<sup>`s and then replacing the first remaining one that many times gives the markers numbered from 1; text without `<sup>` is unchanged |
| Footnotes.Pieces | utils/docx-utils.ts:17 | the text has one more piece than it has `<sup>`s |
| Footnotes.TagPiecesHaveNoOpenBracket | utils/docx-utils.ts:21 | the marker starts with `<sup ` and holds no other `<` |
| Footnotes.FindSkip | utils/docx-utils.ts:19-22 | the search skips a prefix without `<sup>` |
| Footnotes.NoSupInTag | utils/docx-utils.ts:19-22 | no `<sup>` starts inside an inserted marker |
| Footnotes.NoSupBeforeTag | utils/docx-utils.ts:19-22 | after a replacement, no `<sup>` starts before the end of the inserted marker |
| Footnotes.CountBounds | utils/docx-utils.ts:17 | the count is zero exactly when there is no `<sup>`, and each `<sup>` counted takes five characters of the text |
| Footnotes.CountSkip | utils/docx-utils.ts:17 | a prefix without `<sup>` adds nothing to the count |
| Footnotes.ReplaceFirstCount | utils/docx-utils.ts:17-22 | one replacement leaves one `<sup>` fewer |
| Footnotes.LinkCount | utils/docx-utils.ts:17-23 | after `b` iterations, `b` fewer `<sup>`s are left, and none once `b` reaches the count |
| Footnotes.LinkCountAt | utils/docx-utils.ts:17-23 | the same, for one more iteration given the count for the rest of the text |
| Footnotes.ReplaceFirstSkip | utils/docx-utils.ts:19-22 | replacing the first `<sup>` leaves a prefix without `<sup>` alone |
| Footnotes.ReplaceFirstShift | utils/docx-utils.ts:19-22 | when the first `<sup>` of the text is the first one after a prefix, replacing it leaves the prefix alone |
| Footnotes.LinkFirst | utils/docx-utils.ts:18-23 | the first iteration replaces the first `<sup>` by marker 1 |
| Footnotes.LinkStepAt | utils/docx-utils.ts:18-23 | one more iteration numbers the next `<sup>`, given the step for the rest of the text |
| Footnotes.LinkStep | utils/docx-utils.ts:18-23 | while `<sup>`s remain, iteration `n + b` replaces the first remaining one with marker `n + b` |
| Footnotes.PiecesJoin | utils/docx-utils.ts:17-23 | joining the pieces with `<sup>` gives back the text |
| Footnotes.PrefixHasNoSup | utils/docx-utils.ts:19-22 | the text before the first `<sup>` holds none |
| Footnotes.PiecesHaveNoSup | utils/docx-utils.ts:17-23 | no piece holds a `<sup>` |
| Footnotes.LinkAllIsNumbered | utils/docx-utils.ts:17-23 | the linked text is the text's pieces with markers numbered from `n` between consecutive ones, in order |
| Footnotes.LinkAllLeavesNoSup | utils/docx-utils.ts:17-23 | after as many iterations as there were `<sup>`s, no bare `<sup>` is left |
| Footnotes.LinkIdInjective | utils/docx-utils.ts:21 | different numbers give different marker ids |
| Footnotes.TargetIdInjective | utils/docx-utils.ts:21 | different numbers give different citation ids |
| Footnotes.LinkIdIsNotTargetId | utils/docx-utils.ts:21 | a marker id is never a citation id |
| Citations.TagLength | utils/docx-utils.ts:47 | a paragraph tag is at least three characters long and lies within the text |
| Citations.FindTagFrom | utils/docx-utils.ts:47 | the position found holds a `<p>` or `</p>` |
| Citations.FindTagFromIsFirst | utils/docx-utils.ts:47 | the tag found is the first one; no tag is found only when there is none |
| Citations.FindTagFromFinds | utils/docx-utils.ts:47 | the first tag after the start is the one found |
| Citations.SplitFrom | utils/docx-utils.ts:47 | splitting gives at least one piece |
| Citations.SeparatorsFrom | utils/docx-utils.ts:47 | there is one separator fewer than there are pieces |
| Citations.Split | utils/docx-utils.ts:47 | splitting the whole text gives at least one piece |
| Citations.Separators | utils/docx-utils.ts:47 | the whole text has one separator fewer than pieces |
| Citations.DropEmpty | utils/docx-utils.ts:48 | filtering never adds pieces |
| Citations.Paragraphs | utils/docx-utils.ts:46-49 | every paragraph is non-empty, has no whitespace at either end and is the trimmed text of some piece of the split |
| Citations.KeptAreTrimmed | utils/docx-utils.ts:48-49 | what survives trimming and filtering is non-empty, has no whitespace at either end and is the trimmed text of some piece |
| Citations.Concat | utils/docx-utils.ts:51-55 | the accumulated text is as long as all the blocks together |
| Citations.Blocks | utils/docx-utils.ts:51-55 | the citations are empty exactly when there are no paragraphs |
| Citations.BuildCitations | utils/docx-utils.ts:51-55 | the `forEach` accumulation gives the blocks numbered from 1 in paragraph order; no paragraphs give the empty string |
| Citations.BlockListSnoc | utils/docx-utils.ts:52-55 | one more paragraph adds its block at the end |
| Citations.ConcatSnoc | utils/docx-utils.ts:54 | appending one block appends its text |
| Citations.ConcatAppend | utils/docx-utils.ts:54 | concatenation distributes over appending |
| Citations.BlocksAppend | utils/docx-utils.ts:51-55 | the blocks of two runs of paragraphs are the first run's blocks, then the second run's numbered on from it |
| Citations.SplitFromInterleave | utils/docx-utils.ts:47 | the pieces interleaved with the tags between them give back the text from the start position |
| Citations.SplitInterleave | utils/docx-utils.ts:47 | the split loses nothing: pieces and tags interleaved give back the whole text |
| Citations.SplitFromPiecesHaveNoTag | utils/docx-utils.ts:47 | no piece holds a `<p>` or `</p>` |
| Citations.SplitPiecesHaveNoTag | utils/docx-utils.ts:47 | no piece of the whole text holds a `<p>` or `</p>` |
| Citations.TagText | utils/docx-utils.ts:47 | a tag found is the text `<p>` or `</p>` |
| Citations.SeparatorsFromAreTags | utils/docx-utils.ts:47 | every separator is `<p>` or `</p>` |
| Citations.SeparatorsAreTags | utils/docx-utils.ts:47 | every separator of the whole text is `<p>` or `</p>` |
| Citations.SplitPlain | utils/docx-utils.ts:47 | text without `<` is one piece |
| Citations.DropEmptyAppend | utils/docx-utils.ts:48 | filtering distributes over appending |
| Citations.DropEmptyKeeps | utils/docx-utils.ts:48 | what is kept is non-empty and comes from the input |
| Citations.DropEmptyCompleteness | utils/docx-utils.ts:48 | every non-empty piece is kept |
| Citations.ParagraphsAreComplete | utils/docx-utils.ts:46-49 | every piece that is not blank is kept, trimmed |
| Citations.ParagraphsOfEmpty | utils/docx-utils.ts:46-49 | the empty document has no paragraphs |
| PreviewText.Preview | utils/docx-utils.ts:77 | the preview has only single blanks between words and none at either end |
| PreviewText.Collapse | utils/docx-utils.ts:77 | collapsing gives the empty string only for the empty string, and starts with a blank exactly when the text starts with whitespace |
| PreviewText.NonBlank | utils/docx-utils.ts:77 | the characters that are not whitespace are never more than the text |
| PreviewText.ConsSingleSpaced | utils/docx-utils.ts:77 | a character put in front keeps the text single-spaced |
| PreviewText.CollapseIsSingleSpaced | utils/docx-utils.ts:77 | after collapsing, the only whitespace is single blanks |
| PreviewText.TrimSingleSpaced | utils/docx-utils.ts:77 | trimming keeps text single-spaced |
| PreviewText.NonBlankAppend | utils/docx-utils.ts:77 | the characters that are not whitespace distribute over concatenation |
| PreviewText.NonBlankTrimStart | utils/docx-utils.ts:77 | `trimStart` removes only whitespace |
| PreviewText.NonBlankTrimEnd | utils/docx-utils.ts:77 | `trimEnd` removes only whitespace |
| PreviewText.NonBlankCollapse | utils/docx-utils.ts:77 | collapsing removes and inserts only whitespace |
| PreviewText.PreviewKeepsText | utils/docx-utils.ts:77 | the preview keeps every character that is not whitespace, in order, and adds none |
| PreviewText.SingleSpacedAfterBlank | utils/docx-utils.ts:77 | in single-spaced text a leading whitespace is a blank followed by no whitespace |
| PreviewText.CollapseSingleSpacedText | utils/docx-utils.ts:77 | collapsing text that is already single-spaced changes nothing |
| PreviewText.TrimTrimmed | utils/docx-utils.ts:77 | `trim` leaves trimmed text alone |
| PreviewText.PreviewIdempotent | utils/docx-utils.ts:77 | building the preview of a preview changes nothing |
| DocxConvert.ConvertArticleDocx | utils/docx-utils.ts:8-31 | a reader failure gives the article error prefix and the message; otherwise the cleaned HTML with its markers numbered from 1, and no bare `<sup>` left |
| DocxConvert.ConvertCitationsDocx | utils/docx-utils.ts:37-63 | a reader failure gives the citations error prefix and the message; otherwise the numbered blocks of the cleaned HTML's paragraphs, and the empty string when there are none |
| DocxConvert.ConvertPreviewDocx | utils/docx-utils.ts:68-85 | a reader failure gives the preview error prefix and the message; otherwise the collapsed, trimmed, cleaned raw text, which is single-spaced and has no whitespace at either end |
| FileName.GenerateFileName | utils/docx-utils.ts:116-149 | the name ends in `.html`; for a title with a blank, the part before it holds only `[a-z0-9_-]` and at most one `-` |
| FileName.Stem | utils/docx-utils.ts:121-148 | the name of a title with a blank holds only `[a-z0-9_-]` and at most one `-` |
| FileName.CleanTitle | utils/docx-utils.ts:122-125 | the cleaned title holds only `[a-z0-9_]` and whitespace, with no whitespace at either end |
| FileName.KeepWordsAndSpaces | utils/docx-utils.ts:124 | stripping punctuation never lengthens the title |
| FileName.SplitOnSpaces | utils/docx-utils.ts:128 | splitting always gives at least one word |
| FileName.DropCommonWords | utils/docx-utils.ts:143 | filtering common words never adds words |
| FileName.DropCommonWordsCompleteness | utils/docx-utils.ts:143 | every word that is not a common word is kept |
| FileName.DropCommonWordsAppend | utils/docx-utils.ts:143 | the filter keeps the order of the words: filtering a concatenation is concatenating the filtered parts |
| FileName.FirstTwo | utils/docx-utils.ts:146 | the first two words are taken, or all of them when there are fewer than two |
| FileName.SliceLowerWordText | utils/docx-utils.ts:122-125 | a slice of text made of `[a-z0-9_]` and whitespace is made of them too |
| FileName.KeptChars | utils/docx-utils.ts:124 | on lower-cased text the filter leaves only `[a-z0-9_]` and whitespace |
| FileName.TrimKeptIsClean | utils/docx-utils.ts:124-125 | filtering and trimming text without upper-case letters leaves only `[a-z0-9_]` and whitespace |
| FileName.TrimLowerWordText | utils/docx-utils.ts:125 | trimming text made of `[a-z0-9_]` and whitespace leaves text made of them |
| FileName.LowerWordTextTails | utils/docx-utils.ts:128 | the tail of text made of `[a-z0-9_]` and whitespace is made of them too, and so is that tail with its leading whitespace trimmed |
| FileName.SplitOnSpacesWords | utils/docx-utils.ts:128 | splitting clean text gives words of `[a-z0-9_]` only |
| FileName.DropCommonWordsKeeps | utils/docx-utils.ts:143 | the words kept are words of the title that are not common words |
| FileName.ChosenWordsAreClean | utils/docx-utils.ts:128-146 | at most two words are chosen, none of them a common word, each of `[a-z0-9_]` only |
| FileName.JoinIsSafe | utils/docx-utils.ts:146 | clean words joined by `-` hold only `[a-z0-9_-]` |
| FileName.NameOfTitleWithBlank | utils/docx-utils.ts:121-148 | a title with a blank is named after at most two words that are not common words, joined by `-`, each of `[a-z0-9_]` only |
| FileName.NameOfSingleWord | utils/docx-utils.ts:117-119 | a title without a blank is only lower-cased; punctuation and common words are kept |
| FileName.LeadingBlankIgnored | utils/docx-utils.ts:122-125 | a leading blank does not change the name of a title with a blank |
| FileName.DashBetween | utils/docx-utils.ts:146 | two clean words joined by `-` hold exactly the one `-` between them |
| FileName.JoinTwoHasOneDash | utils/docx-utils.ts:146 | at most two clean words joined by `-` hold at most one `-` |
| FileName.DropAllCommonWords | utils/docx-utils.ts:143 | filtering a list of common words leaves nothing |
| FileName.OnlyCommonWords | utils/docx-utils.ts:121-148 | a title with a blank made only of common words is named `.html` |
| FileName.KeepAppend | utils/docx-utils.ts:124 | stripping punctuation distributes over concatenation |
| FileName.TrimSpaceAfter | utils/docx-utils.ts:125 | `trim` ignores a trailing whitespace character |
| FileName.TrailingBlankIgnored | utils/docx-utils.ts:122-125 | a trailing blank does not change the name of a title with a blank |
| FileName.TrimStartAppend | utils/docx-utils.ts:128 | `trimStart` of a concatenation trims into the second part only when the first part is all whitespace |
| FileName.SplitAfterBlank | utils/docx-utils.ts:128 | two endings that both start with whitespace and agree after it split alike after any common text |
| FileName.SplitAfterBlankHead | utils/docx-utils.ts:128 | the same when the common text starts with whitespace |
| FileName.SplitOnSpacesRun | utils/docx-utils.ts:128 | a run of whitespace separates words like a single whitespace character |
| FileName.TrimEndAppend | utils/docx-utils.ts:125 | `trimEnd` of a concatenation trims into the first part only when the second part is all whitespace |
| FileName.TrimAroundBlanks | utils/docx-utils.ts:125 | `trim` of two texts around one or two blanks: the second text alone, the first alone, or both trimmed on their outer sides with the blanks kept |
| FileName.CleanTitleAround | utils/docx-utils.ts:122-125 | the cleaned title of two texts around blanks is both texts filtered, around the same blanks, trimmed |
| FileName.SplitTrimAround | utils/docx-utils.ts:125-128 | two blanks between two texts split after trimming like one blank |
| FileName.InnerBlankIgnored | utils/docx-utils.ts:116-149 | two blanks inside a title give the same name as one blank |
| FileName.KeepWordsAndSpacesKeeps | utils/docx-utils.ts:124 | text of word characters and whitespace passes the punctuation filter unchanged |
| FileName.KeepOne | utils/docx-utils.ts:124 | a lone punctuation character is dropped |
| FileName.KeepDrop | utils/docx-utils.ts:124 | a punctuation character between clean texts is dropped and both texts are kept |
| FileName.KeepDropTwo | utils/docx-utils.ts:124 | two punctuation characters, one inside and one at the end, are both dropped |
| FileName.SplitNoSpacePrefix | utils/docx-utils.ts:128 | text without whitespace in front of more text becomes part of its first word |
| FileName.SplitJoin | utils/docx-utils.ts:128 | splitting words joined by single blanks gives back the words |
| FileName.SplitWordBlank | utils/docx-utils.ts:128 | a word followed by whitespace is the first piece, and the split continues after the whole run |
| FileName.NameOfWords | utils/docx-utils.ts:121-148 | a title with a blank whose cleaned text is words joined by single blanks is named after the first two of them that are not common words |
| FileNameExamples.HelloWorld | tests/utils/docx-utils.test.ts:6 | `Hello World` is named `hello-world.html` |
| FileNameExamples.QuickBrownFox | tests/utils/docx-utils.test.ts:18 | `The Quick Brown Fox` is named `quick-brown.html` |
| FileNameExamples.Philosophy | tests/utils/docx-utils.test.ts:28 | `Philosophy` is named `philosophy.html` |
| FileNameExamples.WhatsPhilosophy | tests/utils/docx-utils.test.ts:33-35 | `What's Philosophy?` is named `whats-philosophy.html` |
| FileNameExamples.AllCommon | tests/utils/docx-utils.test.ts:42 | `The And Or` is named `.html` |
| FileNameExamples.ExtraWhitespace | tests/utils/docx-utils.test.ts:52 | `Hello World` with two blanks before, three between and two after is named `hello-world.html` |
| FileNameExamples.PhilosophyReview | tests/utils/docx-utils.test.ts:60-62 | `2024 Philosophy Review` is named `2024-philosophy.html` |
| FileNameExamples.OneWordLeft | tests/utils/docx-utils.test.ts:72 | `A Test` is named `test.html` |
| FileUpload.ValidateImageFile | utils/file-upload.ts:43-62 | valid exactly when the type is one of the five image types and the size is at most 10 MB; an error exactly when invalid; the type error is reported before the size error |
| FileUpload.ValidateDocxFile | utils/file-upload.ts:67-96 | valid exactly when the type is one of the two Word types and the size is positive and at most 10 MB; an error exactly when invalid; the type error comes first, then the size error, then the empty error |
| FileUpload.TooLargeErrorText | utils/file-upload.ts:57 | the size message reads `File too large. Maximum size: 10MB` |
| FileUpload.ImageSizeBounds | utils/file-upload.ts:45-61 | images of 0 bytes and of exactly 10 MB are accepted, and one byte more is rejected |
| FileUpload.LastDotBefore | utils/file-upload.ts:28 | the position found holds the last `.` before the end; none is found only when there is no `.` |
| FileUpload.Extension | utils/file-upload.ts:28 | the extension is never empty and holds no `.` |
| FileUpload.ImageFileName | utils/file-upload.ts:28-30 | what follows the file name's last `.` is the uploaded file's extension |
| FileUpload.ImageUrl | utils/file-upload.ts:28-37 | what follows the URL's last `.` is the uploaded file's extension |
| FileUpload.LastSegmentShape | utils/file-upload.ts:28 | the last segment holds no `.`; a name without `.` is its own last segment; otherwise the name is its other part, a `.` and the last segment |
| FileUpload.LastSegmentAfterDot | utils/file-upload.ts:28 | what follows a `.` with no `.` after it is the last segment |
| FileUpload.LastDotFinds | utils/file-upload.ts:28 | a `.` with no `.` after it is the one found |
| FileUpload.ExtensionExamples | utils/file-upload.ts:28 | `test` becomes `test`, `photo.png` becomes `png`, `archive.tar.gz` becomes `gz`, and `image.` gets `jpg` |
| FileUpload.UrlInjectiveInTimestamp | utils/file-upload.ts:29-37 | the same file, issue and prefix get the same URL only at the same timestamp |
| Strings.LowerChar | utils/docx-utils.ts:123 | upper-case ASCII letters become lower-case letters; every other character is kept |
| Strings.Lower | utils/docx-utils.ts:123 | the result is as long as the text, holds no upper-case ASCII letter, and keeps every other character in place |
| Strings.LowerConcat | utils/docx-utils.ts:123 | lower-casing distributes over concatenation |
| Strings.TrimStart | utils/docx-utils.ts:125 | the result has no leading whitespace and is no longer than the text |
| Strings.TrimEnd | utils/docx-utils.ts:125 | the result is a prefix of the text with no trailing whitespace |
| Strings.TrimStartSuffix | utils/docx-utils.ts:125 | the result of `trimStart` is a suffix of the text |
| Strings.Trim | utils/docx-utils.ts:49 | the result is no longer than the text and is empty or has no whitespace at either end |
| Strings.JoinLength | utils/docx-utils.ts:146 | the joined text is as long as the parts together plus one separator between each two consecutive parts |
| Strings.NatToString | utils/file-upload.ts:29-30 | decimal notation has at least one character, only digits, and a single digit exactly below 10 |
| Strings.IntToString | utils/file-upload.ts:37 | decimal notation starts with `-` exactly for negative numbers |
| Strings.NatToStringInjective | utils/file-upload.ts:30 | different numbers print differently |
| Strings.IntToStringInjective | utils/file-upload.ts:37 | different integers print differently |

## Left out

- `utils/text-utils.ts` is not part of this model. `unescapeHtml` is modelled from its tests: six references are decoded in one left-to-right pass, and everything else is copied. An implementation that decodes chained replacements would turn `&amp;lt;` into `<`; this model gives `&lt;`.
- The document reader (`mammoth.convertToHtml`, `mammoth.extractRawText`) is a parameter. Its HTML and text are what it returns, not a model of Word documents.
- Promises and exceptions are modelled as a `Result`. The message of a thrown value is the string the reader fails with; the `instanceof Error` test is not modelled.
- `saveImage`'s file-system work is left out: `arrayBuffer`, `Buffer.from`, `existsSync`, `mkdir`, `writeFile`, `process.cwd` and `path.join`. So is a failing write. Only the file name and the URL are modelled.
- `Date.now()` is the `timestamp` parameter of `ImageFileName` and `ImageUrl`. Distinct timestamps for different uploads are not modelled.
- The default `prefix` of `'image'` is not modelled; callers pass a prefix.
- An issue number is an `int`. JavaScript's printing of fractional, infinite or NaN numbers is not modelled.
- A file's MIME type and size are taken as given: a `string` and a `nat`.
- `toLowerCase` is modelled on ASCII only; other characters are left unchanged. Unicode case mapping is not modelled.
- `cleanText` builds a `RegExp` from each key. Each key is a single character with no special meaning in a regular expression, so the global replacement is modelled as replacing that character.
- JavaScript strings are sequences of UTF-16 code units; the model's strings are sequences of Unicode characters. The two agree on every character this code inspects. JavaScript's `\s` and `trim` are modelled as the same whitespace set.
- FileUpload.ImageTypeError: the model spells out the type message as the allowed types joined with `, ` but proves nothing about its literal text.
- Citations.Paragraphs: no lemma evaluates a concrete document. Its properties (trimmed, non-blank, complete, in order, nothing lost by the split) are proved for all texts.
