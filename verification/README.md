# pdf-toprint, modelled in Dafny

pdf-toprint takes a PDF and rebuilds it with only its text. Images, vector art
and embedded fonts are dropped, which saves ink. It has two entry points.
`PDFProcessor.clean_pdf` in app.py is called by the upload handler.
`PDFProcessor.clean_and_reconstruct` in processor.py is a standalone variant.
Both walk every source page and create a blank target page of the same size.
They visit the page's text layout tree in order: blocks, then lines, then spans.
A span whose text is empty or all whitespace is skipped. Every other span is
written again at its own origin and size, in black, in one of three built-in
fonts chosen from its font name. Finally the title and producer metadata are set.

The two entry points differ in two places:

- When writing a span fails, app.py gives up on it. processor.py retries once
  in "sans-serif", then gives up.
- app.py uses the given name as the title. processor.py first removes every
  ".pdf" from the name.

The upload handler also chooses the output name. It takes the form field, or
the uploaded file's stem, and keeps only safe characters. The download is
offered as that name plus ".pdf".

The model is functional. The PDF library is replaced by values and one
parameter:

- a source page is a width, a height and a tree of blocks, lines and spans
  (module `Layout`);
- writing a span is an oracle `ok(font, span): bool`, where `false` stands
  for the exception `insert_text` may raise (module `Insertion`);
- a target page is its size plus the list of records written on it
  (module `Rebuild`).

Modules:

- `Text`: ASCII `lower`, `strip`, the substring test `in`, and
  `str.replace(pat, "")` as `RemoveAll`.
- `Fonts`: the font classifier.
- `Runs`: a generic "map each element to a short list and concatenate", used
  for both the span walk and the records it produces.
- `Layout`: the layout tree and the order in which spans are visited.
- `Insertion`: writing one span under each failure policy.
- `Rebuild`: the page loops, as functions and as loop-based methods proved
  equal to them.
- `Names`: choosing and sanitising the output name.
- `Pipeline`: both entry points, the metadata, and the upload handler's
  naming plus processing.

Three behaviours of the code worth knowing:

- A font name containing both "bold" and "italic" gets "heit". The italic test
  runs after the bold test and overwrites it.
- processor.py's title removes every ".pdf", not only a trailing one, in a
  single left-to-right pass. "a.pdf.b.pdf" becomes "a.b". ".p.pdfdf" becomes
  ".pdf", so a title can still contain ".pdf" afterwards
  (`Pipeline.ProcessorTitleCanStillContainExtension`). What does hold is that
  each ".pdf" present in the name is removed and the text around it is kept
  (`Pipeline.ProcessorTitleDropsEach`), and that "name.pdf" becomes "name"
  whenever "name" has no ".pdf" of its own.
- The fallback to the file stem happens only when the stripped form field is
  empty, before unsafe characters are removed. A field of "!!" therefore gives
  an empty safe name and the download name ".pdf"
  (`Names.PunctuationOnlyFieldGivesEmptyName`).

## Model

| member | source | states |
|---|---|---|
| Text.Lower | app.py:30-31 | lower-casing keeps the length and maps each character independently; upper-case ASCII letters become lower case and nothing else changes |
| Text.LowerIdempotent | processor.py:64-65 | lower-casing an already lower-cased font name changes nothing |
| Text.Strip | app.py:72 | `strip()` never lengthens its input and returns a string with no whitespace at either end |
| Text.StripIsTrimmedInfix | app.py:72 | `strip()` returns a contiguous slice of its input with whitespace only before and after it, and the slice has no whitespace at either end |
| Text.StripFixedIff | app.py:79 | `strip()` leaves a string unchanged exactly when the string has no whitespace at either end |
| Text.StripIdempotent | app.py:79 | stripping twice is stripping once |
| Text.StripUnique | app.py:79 | a non-empty trimmed window of a string with only whitespace around it is exactly what `strip()` returns |
| Text.StripPadded | app.py:79 | whitespace added at either end of a string is removed by `strip()` along with the string's own |
| Text.StripEmptyIffBlank | app.py:26 | `content.strip()` is empty exactly when every character of the content is whitespace; this is the skip test for blank spans |
| Text.Contains | app.py:30 | the substring test holds when the pattern starts at the front, and only when the pattern fits in the string |
| Text.ContainsIffOccurs | app.py:30 | the substring test `"bold" in name` holds exactly when the pattern occurs at some index of the name |
| Text.AvoidingCharAvoidsPattern | processor.py:64-65 | a string lacking one of a pattern's characters does not contain the pattern |
| Text.RemoveAll | processor.py:40 | `replace(pat, "")` never lengthens its input, returns it unchanged when the pattern is absent, and is at least one pattern shorter when the pattern is present |
| Text.RemoveAllSplice | processor.py:40 | `replace(pat, "")` deletes the first occurrence of the pattern, keeps everything before it, and carries on with the rest; with the unchanged-when-absent clause this fixes the result on every input |
| Text.RemoveAppended | processor.py:40 | for a pattern that cannot overlap itself, removing it from `x + pat` gives back `x` whenever `x` does not contain it |
| Fonts.Classify | app.py:29-31 | the font is "heit" exactly when the lower-cased name contains "italic"; it is "hebo" exactly when it contains "bold" and not "italic"; otherwise it is "helv"; "sans-serif" is never chosen |
| Fonts.FontNamesDistinct | processor.py:63-78 | the four font names passed to `insert_text`, "helv", "hebo", "heit" and "sans-serif", are pairwise different, so a font is identified by its name |
| Fonts.ClassifyIgnoresCase | processor.py:64-65 | two font names that lower-case alike get the same font |
| Fonts.ClassifyLowered | app.py:30-31 | classifying the lower-cased name gives the same font as the name itself |
| Fonts.ItalicOverridesBold | processor.py:64-65 | a name containing both "bold" and "italic" gets "heit" |
| Fonts.ClassifyBoldExample | app.py:30 | "Arial-BoldMT" gets "hebo" |
| Fonts.ClassifyBoldItalicExample | app.py:31 | "Arial-BoldItalicMT" gets "heit", not "hebo" |
| Fonts.ClassifyRegularExample | app.py:29 | "TimesNewRomanPSMT" gets the default "helv" |
| Layout.PageSpansAppend | app.py:21-24 | walking two runs of blocks visits all spans of the first run before those of the second, each run in its own order |
| Layout.BlockOrder | processor.py:32-36 | block i's spans form one contiguous run, after the spans of the blocks before it and before the spans of the blocks after it |
| Layout.LinelessBlockSkipped | app.py:22 | a block without "lines" contributes no span, wherever it stands |
| Layout.Visible | app.py:26 | a span is worth writing exactly when its stripped text is not empty |
| Layout.BlockSpans | app.py:22-24 | a block without "lines" yields no span; one with lines yields exactly the spans of its lines |
| Layout.PageSpans | processor.py:32-36 | the walk of blocks, lines and spans visits a span exactly when it belongs to a line of a block that has lines |
| Insertion.RecordFor | processor.py:68-74 | a written record carries the span's own origin, text and size, the chosen font, and black |
| Insertion.Attempts | processor.py:67-81 | a blank span is never tried; a visible one is tried first in its classified font; there are at most two attempts, at most one under app.py's policy, the second is "sans-serif", every attempt but the last failed, and under processor.py's policy a refused classified font is always retried once |
| Insertion.InsertSpan | processor.py:54-81 | at most one record is appended; one is appended exactly when the span is visible and the classified font, or under the retrying policy "sans-serif", is accepted; the record uses an accepted font and the span's own data; a font other than the classified one means the classified font was refused under the retrying policy |
| Insertion.WrittenWithLastAttempt | processor.py:67-81 | a span is written exactly when one of its attempts succeeded, and then in the font of its last attempt |
| Insertion.BlankSpanWritesNothing | app.py:26-27 | a span whose text is empty or whitespace leaves the page unchanged |
| Insertion.RetryKeepsSingleTry | processor.py:67-74 | the retrying policy writes every span the single try writes, and writes it identically |
| Insertion.RetryDropsOnlyOnDoubleFailure | processor.py:75-81 | under the retrying policy a visible span is dropped exactly when both its classified font and "sans-serif" are refused |
| Insertion.RecordsFollowKeptSpans | app.py:33-42 | the records on a page match, one to one and in order, the spans whose insertion succeeded; no span is written twice and a failure drops only its own span |
| Insertion.RecordsOf | processor.py:35-36 | the records a run of spans leaves on a page: at most one per span, and none when every span is empty or whitespace |
| Insertion.RecordsOfAppend | app.py:23-24 | inserting two runs of spans appends the first run's records, then the second's |
| Insertion.RecordsComeFromVisibleSpans | app.py:25-40 | every record is black, has visible text, and copies the text, origin and size of some input span |
| Rebuild.RebuildPage | app.py:17-42 | a target page has the source page's width and height, never more records than the page has spans, and every record is black with visible text |
| Rebuild.RebuildPages | processor.py:23-28 | there is one target page per source page, and page i has source page i's width and height |
| Rebuild.InsertLine | app.py:24-27 | the innermost loop appends, in order, the records of the line's spans |
| Rebuild.InsertLines | app.py:23-24 | the middle loop appends, in order, the records of the spans of every line |
| Rebuild.InsertBlocks | processor.py:32-36 | the nested block, line and span loops produce the records of the page's spans in walk order |
| Rebuild.RebuildPageLoop | app.py:17-42 | the page loop body yields a page of the source page's size whose records are those of its spans |
| Rebuild.RebuildPagesLoop | processor.py:23-28 | the outer loop yields one target page per source page, in index order |
| Rebuild.PagesMatchSource | app.py:17-18 | the output has as many pages as the input, page i has source page i's width and height, and its records are those of source page i's spans |
| Rebuild.SpanSurvives | processor.py:67-79 | a visible span accepted in its classified font is on its page in that font; under the retrying policy, one refused there but accepted in "sans-serif" is on its page in "sans-serif" |
| Names.LastIndexOf | app.py:71 | the index found holds the character, no later index does, and -1 means the character is absent |
| Names.Stem | app.py:71 | the stem is a prefix of the file name; when shorter, it stops at the last '.' of the last path component, and some character of that component before the '.' is not a '.', so a leading dot as in "d/.x" is never cut; conversely, a last path component with a '.' after some other character always loses its extension |
| Names.StemOfExtension | app.py:71 | "name.ext" has stem "name" when the extension has no '.' or '/' and the name does not end in '.' or '/' |
| Names.HiddenFileKeepsName | app.py:71 | "d/.x" is its own stem: a dot file inside a directory has no extension |
| Names.StemWithoutDot | app.py:71 | a file name with no '.' is its own stem |
| Names.StemEmptyIff | app.py:71 | the stem is empty exactly when the file name is |
| Names.KeepSafe | app.py:79 | the filter keeps only letters, digits, space, '_' and '-', takes every character it keeps from the name, never lengthens the name, and leaves an all-safe name unchanged |
| Names.KeepSafeChar | app.py:79 | a single character is kept exactly when it is a letter, digit, space, '_' or '-', and dropped otherwise |
| Names.KeepSafeAppend | app.py:79 | filtering works piecewise, so the kept characters stay in their original order |
| Names.Sanitize | app.py:79 | the safe name holds only safe characters and has no whitespace at either end |
| Names.SanitizeStrip | app.py:72-79 | stripping a name before sanitising it makes no difference to the safe name |
| Names.SanitizeIdempotent | app.py:79 | sanitising the safe name again returns it unchanged |
| Names.SanitizeFixesSafeNames | app.py:79 | a trimmed name of safe characters is its own sanitised form |
| Names.ChooseName | app.py:72-76 | the chosen name is empty only when the stem is; it is the stem itself or a trimmed name; a blank field falls back to the stem, a field with other characters is used stripped, and a missing field uses the stripped stem, or the stem itself when that is blank |
| Names.ChosenNameNonEmpty | app.py:71-76 | for a non-empty file name, the chosen name is never empty |
| Names.NameUpload | app.py:71-80 | the safe name is the sanitised field when the field holds something besides whitespace, and the sanitised stem of the file name otherwise; it is made of safe characters, is trimmed, is unchanged by sanitising again, and the download name is the safe name plus ".pdf" |
| Names.SanitizeChosen | app.py:72-79 | sanitising the chosen name gives the sanitised field, or the sanitised stem when the field is missing or blank |
| Names.NameUploadExample | app.py:72-80 | the field "My Report!!" gives the title "My Report" and the download name "My Report.pdf" |
| Names.PunctuationOnlyFieldGivesEmptyName | app.py:74-80 | the field "!!" passes the fallback test, so the safe name is empty and the download name is ".pdf" |
| Names.MissingFieldUsesStem | app.py:71-72 | with no form field, uploading "name.pdf" for a safe, trimmed name gives the title "name" and the download name "name.pdf" |
| Pipeline.AppMetadata | app.py:45-48 | the title is the given name unchanged and the producer is "InkSaver SaaS" |
| Pipeline.ProcessorMetadata | processor.py:39-42 | the producer is "InkSaver SaaS"; a name without ".pdf" is the title unchanged; a name containing ".pdf" loses at least four characters |
| Pipeline.ProcessorTitleDropsEach | processor.py:40 | the first ".pdf" of a name is removed with everything before it kept, and the rest of the name is titled on its own, so every ".pdf" present in the name is removed |
| Pipeline.ProcessorTitleDropsExtension | processor.py:40 | "name.pdf" is titled "name" whenever "name" has no ".pdf" of its own |
| Pipeline.ProcessorTitleDropsInnerOccurrences | processor.py:40 | every ".pdf" is removed, not only a trailing one: "a.pdf.b.pdf" is titled "a.b" |
| Pipeline.ProcessorTitleCanStillContainExtension | processor.py:40 | the removal is a single pass: ".p.pdfdf" is titled ".pdf", which still contains ".pdf" |
| Pipeline.DefaultTitlesAgree | processor.py:18 | processor.py's default name "documento_limpio.pdf" gives the same title as app.py's default "documento_limpio" |
| Pipeline.CleanPdf | app.py:12-56 | app.py's entry point rebuilds one page per source page with the single-try policy and titles the document with the name as given, producer "InkSaver SaaS" |
| Pipeline.CleanAndReconstruct | processor.py:18-52 | processor.py's entry point rebuilds one page per source page with the retry policy and titles the document with every ".pdf" removed |
| Pipeline.ProcessUpload | app.py:71-84 | the handler names the upload as `NameUpload` does, rebuilds the pages with app.py's single-try policy, titles the document with the trimmed safe name, sets the producer, and offers the document as that title plus ".pdf" |
| Pipeline.SafeNameTitledAlike | processor.py:40 | a safe name plus ".pdf" gets from processor.py the same title app.py gives the bare name |
| Pipeline.DownloadNameTitlesAlike | app.py:79-80 | passing the download name to processor.py's entry point gives the same title app.py writes |

## Left out

- Flask routing, CORS, `request.files`, `send_file`, the JSON error responses
  (app.py:58-66, 82-94) and `app.run`: HTTP plumbing. The form field is an
  `Option<string>` parameter of `Names.NameUpload`.
- The PDF library itself: `fitz.open`, `get_text("dict")`, `new_page`,
  `insert_text`, `set_metadata`, `save` and `close`. Pages come in as values.
  Writing a span is the oracle parameter. The output is a list of page values
  and a metadata value.
- `io.BytesIO` streams and serialisation of the output document.
- The constructor's file-path branch (processor.py:9-14): it only chooses how
  the library opens the input.
- The `__main__` test block of processor.py and its file I/O.
- Exceptions raised by malformed layout dictionaries, such as a missing
  "text" or "font" key. The model's spans always have every field.
- Insertion oracle: whether `insert_text` succeeds is modelled as depending
  only on the font and the span, not on what is already on the page.
- Geometry: origins, sizes, widths and heights are real values copied
  through unchanged; no floating-point arithmetic is modelled.
- Text.Lower: models `str.lower` on ASCII letters only. Other cased Unicode
  letters are left unchanged, unlike in Python.
- Text.StripIsTrimmedInfix: treats as whitespace exactly the characters 9-13
  and 28-32, the ASCII part of `str.isspace`. Unicode spaces such as U+00A0
  are not stripped.
- Names.KeepSafe: `str.isalnum` is modelled for ASCII letters and digits only.
  Non-ASCII letters and digits, which Python keeps, are dropped.
- Names.Stem: models `posixpath.splitext`. The Windows variant, which also
  splits at '\\' and drive letters, is not modelled.
