# eml2md in Dafny

eml2md converts an `.eml` email (or a thread of forwarded emails) into a Markdown
document. A companion script, `read_md_email.py`, reads such a Markdown document back
into one dictionary per email, then renders Obsidian YAML front matter from a chosen
email. This project models both directions and proves properties of each. It also proves
that one rendered email section reads back to the record that produced it.

Modules, one per concern of the two scripts:

- `Mime` (mime.dfy): the parsed message as the `email` package presents it. A `Part`
  has a content type, a disposition, a charset, an optional file name and a body that
  is either a decoded payload or a list of sub-parts. `Walk` is the pre-order
  `msg.walk()`. A `Library` value gathers the parts of Python's standard library whose
  behaviour depends on tables outside the program, as function-valued fields:
  - `bytes.decode` with a named charset (text, `UnicodeDecodeError` or `LookupError`);
  - lossy UTF-8 decoding (`errors='ignore'`);
  - `email.header.decode_header`;
  - `parsedate_to_datetime`.
- `EmlDecode` (eml_decode.dfy): `decode_content` and `decode_email_header`.
- `EmlExtract` (eml_extract.dfy):
  - `extract_email_parts`: the walk loop that builds the body and the attachment list,
    with the `<[^>]+>` tag stripper;
  - the thread selection of `process_eml_file`: the container email first, then every
    email embedded in a `message/rfc822` part, in walk order.
- `EmlRender` (eml_render.dfy): `create_markdown_content` (oldest-first stable sort,
  numbered sections) and the attachment file-name sanitiser.
- `MdText` (md_text.dfy): `_clean_ws`, `_strip_subject_prefixes`, `_first_n_words` and
  `_shorten_preview_list`.
- `Recipients` (recipients.dfy): `_normalize_name_email_glue` and
  `_parse_recipients_list`, covering the name/address scan, masking, the bare-address
  scan, the fallback split, the separator clean-up and order-preserving de-duplication.
- `MdParse` (md_parse.dfy): `parse_emails`. This covers:
  - the split before every `## Email N` line;
  - the six field searches;
  - date parsing;
  - the cut before quoted history;
  - the newest-first stable sort.
- `Yaml` (yaml.dfy): `render_obsidian_yaml`.
- `RoundTrip` (round_trip.dfy): what `parse_emails` finds in a section written by
  `create_markdown_content`.
- `Text`, `DateTimes`, `Sorting`, `Results`: the string scanning, the `datetime` fields with
  `strftime`, the stable sort by key, and the `Option`/`Result` wrappers.

Each regular expression is modelled as a hand-written scanner over `seq<char>`. Its doc
comment states how the scanner reproduces the pattern's greedy or lazy matching.
Methods with loops mirror the scripts' own loops and are proved equal to the
specification functions: the walk loop, the section loop, the recipient loops, the
subject-prefix loop, the chunk loop and the YAML line building. `datetime.strptime` with
`DATE_IN_FMT` is a parameter `strptime: string -> Option<DateTime>`, where `None` stands
for its `ValueError`.

## Model

| member | source | states |
|---|---|---|
| EmlDecode.DecodeContentAsWritten | eml2md.py:13-26 | As written: the declared charset (utf-8 when none) is used when it decodes; an unknown charset raises `LookupError`, because only `UnicodeDecodeError` is caught |
| EmlDecode.DecodeContent | eml2md.py:13-26 | Corrected: the declared charset when it decodes, otherwise strict utf-8 when that decodes, otherwise lossy utf-8; a text always results |
| EmlDecode.DecodeContentAgrees | eml2md.py:13-26 | Whenever the as-written function returns a text, the corrected one returns the same text |
| EmlDecode.UnknownCharsetRaises | eml2md.py:16-20 | For a library without `unknown-8bit`, the as-written function raises `LookupError` while the corrected one falls back to utf-8 |
| EmlDecode.DecodeSegment | eml2md.py:36-46 | A `str` segment is kept. Bytes with a non-empty charset that decodes use that charset. All other bytes (no charset, or `UnicodeDecodeError`/`LookupError`) are decoded lossily as utf-8 |
| EmlDecode.DecodeEmailHeader | eml2md.py:29-48 | An absent header gives `""`; otherwise the result is the concatenation of the decoded segments of `decode_header`, in order |
| EmlDecode.JoinAllDecoded | eml2md.py:34-48 | Joining the list of per-segment decodings equals the segment-wise decoding of the whole header |
| EmlDecode.SegmentsTextAppend | eml2md.py:35-48 | Decoding distributes over concatenation of segment lists |
| EmlDecode.SegmentsTextPlain | eml2md.py:45-46 | A header whose segments are all `str` is joined unchanged |
| Mime.Walk | eml2md.py:71 | The walk is non-empty and visits the part itself first |
| Mime.WalkContainsSubwalk | eml2md.py:71 | Every part reached from a part in the walk is itself in the walk |
| EmlExtract.StripTags | eml2md.py:84 | The result is no longer than its input and contains no `<...>` tag of one or more characters |
| EmlExtract.StripTagsKeepsTagFree | eml2md.py:84 | A tag-free text is left unchanged |
| EmlExtract.StripTagsIdempotent | eml2md.py:84 | Stripping twice is stripping once |
| EmlExtract.StripTagsPlain | eml2md.py:84 | A text without `<` is unchanged |
| EmlExtract.StripTagsRemovesTag | eml2md.py:84 | A tag `<x>` (x non-empty, without `>`) after a `<`-free text `a` is removed: the result is `a` followed by the stripping of what comes after the tag |
| EmlExtract.StripTagsShift | eml2md.py:84 | The scan is local: stripping a text from where its suffix `b` starts is stripping `b` |
| EmlExtract.InlineTextAsWritten | eml2md.py:76-80 | For parser-built parts, the inline text tests of the model are exactly the source's content-type and `'attachment' not in disposition` tests |
| EmlExtract.AttachmentOf | eml2md.py:87-93 | A part yields an attachment iff it has a non-empty file name and a non-empty payload; content and content type are kept |
| EmlExtract.StepCases | eml2md.py:72-93 | One loop iteration, by case: plain text appends its decoding; html appends its tag-stripped decoding only while the body is empty; otherwise an attachment is recorded; otherwise nothing changes |
| EmlExtract.StepBody | eml2md.py:76-84 | One step's new body: the part's contribution when the body is empty, else the old body plus the part's text when it is inline plain text |
| EmlExtract.FirstContributorSpec | eml2md.py:76-84 | The first contributing part has a non-empty contribution and every earlier part contributes nothing |
| EmlExtract.BodySelection | eml2md.py:71-84 | The final body is the first non-empty contribution (plain or stripped html) followed by the text of every later inline `text/plain` part |
| EmlExtract.BodyWithoutHtml | eml2md.py:71-77 | Without inline html parts, the body is the concatenation of the plain parts' texts in walk order |
| EmlExtract.AttachmentsInWalkOrder | eml2md.py:86-93 | The attachments are a subsequence, in walk order, of the candidates (non-plain-text parts with a name and a payload) and contain, in order, every such part whose disposition names `attachment` |
| EmlExtract.AttachmentsWithoutHtml | eml2md.py:86-93 | Without inline html parts, the attachments are exactly the candidates in walk order |
| EmlExtract.DateOf | eml2md.py:54-60 | No date for a missing or empty `Date` header, otherwise the library's `parsedate_to_datetime` outcome |
| EmlExtract.ExtractEmailParts | eml2md.py:51-103 | The walk loop computes the record specified by `Extract`, with the corrected `DecodeContent` |
| EmlExtract.ExtractAsWritten | eml2md.py:51-103 | As written: the record, or the exception escaping the walk loop; it completes iff the loop does |
| EmlExtract.FoldAsWrittenAgrees | eml2md.py:71-84 | Where the loop as written completes, it builds the same body and attachments as the corrected loop |
| EmlExtract.FoldAsWrittenCompletes | eml2md.py:71-84 | With no inline text part whose decoding raises, the loop as written completes |
| EmlExtract.FoldAsWrittenAborts | eml2md.py:76-77 | An inline plain text part whose decoding raises aborts the loop, wherever it lies in the walk |
| EmlExtract.ExtractAsWrittenAgrees | eml2md.py:51-103 | The record as written equals `Extract` when it is returned, and is returned whenever no text part's decoding raises |
| EmlExtract.ExtractAsWrittenRaises | eml2md.py:76-77 | A plain text part whose decoding raises (as `unknown-8bit` does without that codec) makes the extraction raise |
| EmlExtract.AnyRfc822Iff | eml2md.py:157-158 | The `any(...)` test holds iff some part of the walk is `message/rfc822` |
| EmlExtract.EmbeddedAreSubmessages | eml2md.py:167-172 | Every embedded record is the extraction of a child of some `message/rfc822` part in the walk |
| EmlExtract.ThreadRecords | eml2md.py:157-175 | The first record is always the container email's own; more than one record only for a `multipart/mixed` message with an rfc822 part |
| EmlExtract.ExtractEmbedded | eml2md.py:168-172 | The inner loop appends the extraction of each child of one rfc822 part, in order |
| EmlExtract.ExtractAllEmbedded | eml2md.py:167-172 | The outer loop collects the embedded records of the whole walk |
| EmlExtract.SelectThread | eml2md.py:157-175 | The selection branch computes `ThreadRecords` |
| DateTimes.OrdOrder | eml2md.py:109 | The integer key orders datetimes as Python compares them, and is injective |
| Sorting.SortByKey | eml2md.py:109 | `sorted` by key: same length, ordered by key, a permutation, and stable (equal-key records keep their order) |
| EmlRender.RenderOrder | eml2md.py:109 | Sections come in a permutation of the input, oldest first; undated emails (keyed as `datetime.min`) never follow a dated one later than `datetime.min`; emails with equal keys keep their order |
| EmlRender.DateLine | eml2md.py:117-118 | The date line is absent iff the email has no date |
| EmlRender.CcLine | eml2md.py:123-124 | The CC line is absent iff the cc text is empty |
| EmlRender.AttachmentBlock | eml2md.py:133-137 | The attachments block is absent iff there are no attachments |
| EmlRender.RenderTitle | eml2md.py:111 | The document starts with the `# Email Thread` title |
| EmlRender.SectionsAt | eml2md.py:113-139 | Section i+1 of the loop starts right after the first i sections |
| EmlRender.RenderSectionAt | eml2md.py:111-139 | The i-th oldest email's section, numbered i+1, starts right after the title and the preceding sections |
| EmlRender.CreateMarkdownContent | eml2md.py:106-141 | The method builds the document specified by `Render` |
| EmlRender.AppendSections | eml2md.py:113-139 | The section loop appends every section in order |
| EmlRender.AppendSection | eml2md.py:114-139 | One iteration appends the section specified by `Section` |
| EmlRender.AppendAttachmentLinks | eml2md.py:135-136 | The link loop appends one `- [name](name)` line per attachment |
| EmlRender.SanitizeFilename | eml2md.py:189 | Same length; each character is kept when it is a word character, `.` or `-`, and replaced by `_` otherwise |
| EmlRender.SanitizedIsSafe | eml2md.py:189 | A sanitised name has only safe characters, in particular no `/` or `\` |
| EmlRender.SanitizeSafeNoop | eml2md.py:189 | A name made of safe characters is unchanged |
| EmlRender.SanitizeIdempotent | eml2md.py:189 | Sanitising twice is sanitising once |
| RoundTrip.SectionShape | eml2md.py:114-139 | Every section starts with its `## Email N` heading line and ends with the `---` rule |
| RoundTrip.StampClean | eml2md.py:118 | The `%Y-%m-%d %H:%M:%S` stamp is one clean non-empty line without `*` or `#` |
| DateTimes.FormatShape | read_md_email.py:15-16 | The minute stamp is a date part and a time part joined by the only space; both stamps use digits, `-`, `:` and space |
| MdText.CollapseWs | read_md_email.py:20 | The result is single-spaced (no whitespace but lone spaces), no longer than the input, empty iff the input is, and begins and ends with whitespace iff the input does |
| MdText.CollapseWsWords | read_md_email.py:20 | Collapsing keeps every word, in order: `str.split()` of the result equals that of the input |
| MdText.CleanWs | read_md_email.py:19-20 | The result has no leading or trailing whitespace, its only whitespace is single spaces, and it is no longer than the input |
| MdText.CleanWsWords | read_md_email.py:19-20 | Cleaning keeps every word, in order |
| MdText.WordsOfStrip | read_md_email.py:20 | Stripping keeps every word, in order |
| MdText.CleanWsNoop | read_md_email.py:19-20 | An already clean text is unchanged |
| MdText.CleanWsIdempotent | read_md_email.py:19-20 | Cleaning twice is cleaning once |
| MdText.Words | read_md_email.py:98 | `str.split()`: every word is non-empty and has no whitespace |
| MdText.WordsJoin | read_md_email.py:98-99 | Splitting a space-joined list of words gives back the list |
| MdText.WordsSepAppend | read_md_email.py:98 | The words of `a + [c] + b`, for any whitespace character `c`, are the words of `a` followed by those of `b` |
| MdText.WordsSpaceAppend | read_md_email.py:98 | The words of `a + " " + b` are the words of `a` followed by those of `b` |
| MdText.FirstNWords | read_md_email.py:97-99 | The result's words are exactly the first n words of the text (all of them when fewer), so at most n, joined by single spaces with no leading or trailing whitespace |
| MdText.ShortenPreviewList | read_md_email.py:90-95 | Up to three recipients are joined with `, `; more start with the first three and end with ` others...` |
| MdText.PreviewCountsOthers | read_md_email.py:93-94 | With more than three recipients, the number written is the count of the remaining ones, in decimal digits |
| MdText.StripPrefixes | read_md_email.py:27-31 | The result is a suffix of the input that starts with no `re`/`fw`/`fwd` prefix, and stays trimmed when the input was |
| MdText.StripSubjectPrefixes | read_md_email.py:22-32 | Empty stays empty; otherwise the result is trimmed and has no further reply or forward prefix |
| MdText.StripSubjectPrefixesIdempotent | read_md_email.py:22-32 | Stripping the prefixes twice is stripping them once |
| MdText.StripSubjectPrefixesNoPrefix | read_md_email.py:22-32 | A subject without a prefix is only trimmed |
| MdText.StripSubjectPrefixesLoop | read_md_email.py:22-32 | The `while` loop computes the prefix-free subject |
| Recipients.CollapseBreaks | read_md_email.py:36 | No carriage return, newline or tab remains |
| Recipients.CollapseBreaksNoop | read_md_email.py:36 | A text without those characters is unchanged |
| Recipients.CollapseBreaksWords | read_md_email.py:36 | Collapsing the breaks keeps every word, in order |
| Recipients.GlueFrom | read_md_email.py:37 | Dropping the stray commas introduces no line breaks |
| Recipients.GlueAtStep | read_md_email.py:37 | Where `\b,\s*(<[^>]+>)` matches (a comma after a word character, spaces, a `<...>` address), the comma and spaces become one space before the address and the scan resumes after it |
| Recipients.GlueKeepsComma | read_md_email.py:37 | A comma not followed, after spaces, by `<` is kept |
| Recipients.GlueFromNoComma | read_md_email.py:37 | A text without commas is unchanged |
| Recipients.CollapseLongRuns | read_md_email.py:38 | No two whitespace characters remain adjacent |
| Recipients.CollapseLongRunsWords | read_md_email.py:38 | Collapsing long runs keeps every word, in order |
| Recipients.NormalizeGlue | read_md_email.py:34-39 | The normalised field has no line breaks or tabs, is trimmed, and has no double whitespace |
| Recipients.NormalizeNoop | read_md_email.py:34-39 | An already normal field without commas is unchanged |
| Recipients.NormalizeGlueWords | read_md_email.py:34-39 | A field without commas keeps every word, in order |
| Recipients.NameEmailScan | read_md_email.py:54-55 | The `finditer` matches are within the text, non-empty, and their names contain no `<`, `>`, `"`, `,` or `;` |
| Recipients.Masked | read_md_email.py:62-67 | Same length; a character is NUL iff it lies in some matched span, otherwise it is kept |
| Recipients.MaskSpans | read_md_email.py:62-67 | The masking loops over a character array compute `Masked` |
| Recipients.BareScan | read_md_email.py:70 | Every bare address found is non-empty and starts with an address character |
| Recipients.FallbackParts | read_md_email.py:74-76 | Every fallback part is trimmed, non-empty and free of `,` and `;` |
| Recipients.FallbackPiece | read_md_email.py:74-76 | A separator-free text splits into itself stripped, or nothing when it is blank |
| Recipients.FallbackSplit | read_md_email.py:74-76 | Splitting at a first `,` or `;` gives the pieces of the text before it followed by those of the rest |
| Recipients.CleanEntries | read_md_email.py:79 | The clean-up is applied to every entry, position by position |
| Recipients.Dedup | read_md_email.py:81-88 | The result holds exactly the non-empty entries of the input, each once |
| Recipients.DedupKeepsFirstOccurrenceOrder | read_md_email.py:81-88 | Kept entries appear in the order of their first occurrence |
| Recipients.DedupLoop | read_md_email.py:81-88 | The `seen`-set loop computes `Dedup` |
| Recipients.ParseRecipients | read_md_email.py:41-88 | An empty field gives no recipients; otherwise entries are non-empty and pairwise distinct |
| Recipients.ParsedEntriesWellFormed | read_md_email.py:78-79 | Every entry is trimmed and does not start with `,` or `;` |
| Recipients.FallbackWhenNoAddress | read_md_email.py:73-76 | When neither scan finds anything, the result is the de-duplicated fallback split, with no separators inside entries |
| Recipients.ParseEntry | read_md_email.py:54-59 | A single `Name <email>` field parses to itself |
| Recipients.ParseNameComma | read_md_email.py:34-39 | A `Name, <email>` field parses to `Name <email>` |
| Recipients.ParseRecipientsList | read_md_email.py:41-88 | The function's loops compute `ParseRecipients` |
| Recipients.CollectItems | read_md_email.py:55-59 | The match loop produces one `name <email>` item per match, in order |
| Recipients.AppendAll | read_md_email.py:70-71 | The bare-address loop appends every bare address after the named entries |
| MdParse.NextHeaderFacts | read_md_email.py:103 | The next split point is a `## Email N` header line, and no header line lies before it |
| MdParse.ChunksCover | read_md_email.py:103 | Concatenating the chunks gives back the whole document |
| MdParse.ChunksStartWithHeader | read_md_email.py:103 | Every chunk after the first starts with `## Email` |
| MdParse.NumberOfHeader | read_md_email.py:110-111 | A chunk starting with `## Email N` has number N |
| MdParse.LineFieldOneLine | read_md_email.py:113-117 | A found date, sender or subject value is non-empty and lies on one line |
| MdParse.LazyEnd | read_md_email.py:115-116 | The lazy match stops at the first position where a stop pattern or the end of the text follows |
| MdParse.LazyField | read_md_email.py:115-116 | A found To or CC value is non-empty |
| MdParse.ContentField | read_md_email.py:118 | A found content value is non-empty |
| MdParse.CutAt | read_md_email.py:140-148 | The cut is at the first six-underscore line start when there is one; otherwise at the first 32-underscore token; otherwise at the end; no separator line lies before it |
| MdParse.Truncate | read_md_email.py:138-149 | With a cut, the result is the content before the cut, right-stripped: a prefix ending in non-whitespace with only whitespace between it and the cut. Without one, the content itself. It is the whole content iff there is nothing to cut at, and no six-underscore line remains |
| MdParse.TruncateAtSepLine | read_md_email.py:141-149 | A text without separator lines followed by a newline and six underscores is cut to that text, right-stripped |
| MdParse.MakeEmail | read_md_email.py:123-161 | `date_out` is the minute rendering of the parsed date and empty without one; a parsed date implies a non-empty `date_in`; sender and `date_in` are whitespace-clean |
| MdParse.MakeEmailDate | read_md_email.py:123-131 | `date_in` is the cleaned `Date` value, empty without one; the date is `strptime` of a non-empty `date_in` and absent otherwise |
| MdParse.ParseChunk | read_md_email.py:106-161 | A chunk yields an email iff it is not blank and one of date, sender, subject or content is found; the email's dates agree |
| MdParse.CollectAgree | read_md_email.py:106-161 | Every collected email's dates agree |
| MdParse.CollectLoop | read_md_email.py:106-161 | The chunk loop computes `Collect` |
| MdParse.ParseEmailsLoop | read_md_email.py:102-168 | The function computes `ParseEmails` |
| MdParse.NewestFirst | read_md_email.py:163-167 | The sort gives a permutation, newest first, undated last, stable among equal dates |
| MdParse.ParseEmailsOrder | read_md_email.py:102-168 | The parsed emails are a permutation of the collected ones, newest first, undated last, stable, with agreeing dates |
| Yaml.SplitOn | read_md_email.py:193 | `str.split` returns at least one piece |
| Yaml.SplitJoin | read_md_email.py:193 | Joining the pieces with the separator gives back the text |
| Yaml.SplitPieces | read_md_email.py:193 | No piece contains the separator |
| Yaml.SplitTwo | read_md_email.py:193 | Two separator-free texts joined by one separator split into exactly those two |
| Yaml.EscapeQuotesRoundTrip | read_md_email.py:215 | Unescaping the escaped subject gives it back |
| Yaml.QuotesEscaped | read_md_email.py:215 | Every `"` in the escaped subject is preceded by a backslash |
| Yaml.ItemLines | read_md_email.py:207-213 | One list line per recipient |
| Yaml.DateLines | read_md_email.py:192-203 | The date lines raise only when `date_out` is set and does not split into exactly two pieces |
| Yaml.YamlOfParsedEmail | read_md_email.py:192-195 | For an email whose dates agree, rendering succeeds and writes the date part and time part of the parsed date |
| Yaml.DateOutWithoutSpaceRaises | read_md_email.py:193 | A non-empty `date_out` without a space makes the unpacking raise |
| Yaml.YamlLinesShape | read_md_email.py:184-218 | The lines open with `---`, close with `---\n` after the quoted subject, list every `to` recipient after `to:`, and have a `cc:` line iff there are cc recipients |
| Yaml.YamlFrame | read_md_email.py:184-218 | The front matter starts and ends with `---\n` |
| Yaml.RenderObsidianYaml | read_md_email.py:184-218 | The method builds the text specified by `ObsidianYaml` |
| Yaml.AppendDateLines | read_md_email.py:192-203 | The date branch appends the date lines or raises `ValueError` |
| Yaml.AppendItems | read_md_email.py:207-213 | The recipient loop appends one list line per recipient |
| RoundTrip.NumberRead | read_md_email.py:110-111 | The number read from a rendered section is its index |
| RoundTrip.DateRead | read_md_email.py:113 | A dated section's date search finds the `%Y-%m-%d %H:%M:%S` stamp written at eml2md.py:118 |
| RoundTrip.DateMissing | read_md_email.py:113 | An undated section has no date field when no header value, body or attachment name holds `**Date**:` |
| RoundTrip.FromRead | read_md_email.py:114 | The sender search finds the sender written at eml2md.py:120, without leading blanks |
| RoundTrip.SubjectRead | read_md_email.py:117 | The subject search finds the subject written at eml2md.py:126, without leading blanks, when the sender, To and CC values hold no `**Subject**:` |
| RoundTrip.LineFieldAt | read_md_email.py:113-117 | A `**Key**: value` line preceded by text without that marker is read as the value without leading blanks |
| RoundTrip.ContentSectionRead | read_md_email.py:118 | The content search finds the stripped body written at eml2md.py:129-130, with its newline, when no header value holds `### Content` |
| RoundTrip.ContentBack | read_md_email.py:138-149 | The parser's stripping and truncation give back the stripped body when it has no quoted-history separator |
| RoundTrip.SectionFields | read_md_email.py:113-118 | For a readable record, the searches find its sender, subject, body and date; readability asks header values only to avoid the keys searched after them, so `#` and `*` may appear |
| RoundTrip.EmailRead | read_md_email.py:123-161 | From those fields the parser builds an email with the index, the clean sender, the prefix-free subject, the stripped body and the date |
| RoundTrip.ChunkRead | read_md_email.py:106-161 | Such a chunk is kept and read back |
| RoundTrip.SectionRoundTrip | read_md_email.py:102-161 | Parsing the section that eml2md.py:113-139 writes for a readable record yields an email carrying its number, sender, subject, body and date |
| RoundTrip.HashSubjectReadable | read_md_email.py:113-118 | The record from "Ann *" with subject "Re: ticket #42" is readable, so it reads back |
| RoundTrip.LetterFreeReadable | read_md_email.py:113-118 | An undated one-line record is readable when the sender lacks an `S`, `C` and `D` and the subject a `C` and `D` |
| RoundTrip.FieldlessChunk | read_md_email.py:120-121 | A chunk without `*` or `C` is skipped |
| RoundTrip.PreambleDropped | read_md_email.py:120-121 | The `# Email Thread` title chunk is skipped |

## Left out

- File handling is outside the model: reading the `.eml` file, writing the Markdown and
  attachment files, `shutil.move`, the folder loop and `main`. Also left out are the
  clipboard, `preview_emails`' printing and the GUIs (`gui_tkinter.py`,
  `gui_launcher.py`, `run_gui.py`, `app.py`). The pure helpers that the preview uses
  (`_first_n_words`, `_shorten_preview_list`) are modelled.
- The `email` package's MIME parser is not modelled. `bytes.decode` for named charsets,
  `decode_header`, `parsedate_to_datetime` and `datetime.strptime` are not modelled
  either: they are `Library` fields or parameters, and the model states its results in
  terms of them.
- Time zones, daylight saving and microseconds are not modelled. A `DateTime` has date and
  time fields only. Python raises `TypeError` when it compares an aware datetime with
  the naive `datetime.min` in the sort at eml2md.py:109; the model does not raise it.
- Python's `-inf` key for undated emails (read_md_email.py:165) is modelled as an integer
  key above every dated key. The sort is reversed, so undated emails still come last.
- `\w` and `\d` are matched over ASCII only. `\s` is the full `str.isspace` set.
- SimHash near-duplicate detection, a configurable de-duplication threshold and heuristic
  thread segmentation are not part of this model. The scripts do not implement them.
- Content truncation follows the code: a six-underscore line wins over the 32-underscore
  token even when the token comes earlier (read_md_email.py:141-148).
- The attachment link uses the unsanitised name, as the code does (eml2md.py:136).
- The YAML subject escapes only `"`. A backslash in a subject is not escaped, as in the code.
- `Truncate` is not idempotent, and the model does not claim it is.
- EmlExtract.StripTags: its own contract gives only the length bound and that no tag is
  left. What it removes and keeps is stated by `StripTagsRemovesTag`, `StripTagsPlain` and
  `StripTagsKeepsTagFree`. A `<` that starts no tag (`<>`, or no `>` after it) is kept, but no lemma states
  that on its own.
- EmlExtract.Extract, EmlExtract.ExtractEmailParts, EmlExtract.ThreadRecords and
  EmlExtract.SelectThread use the corrected `DecodeContent`, so they never raise. The code
  as written aborts the whole file on a text part in an unknown charset. For one message
  this is `ExtractAsWritten`; the thread-level abort is not modelled separately.
- MdText.CollapseWs: its own contract gives the shape of the result. That words are kept
  is stated by `CollapseWsWords`. That each run becomes exactly one space at its own
  position is not stated beyond that.
- MdText.CleanWs: its own contract gives the shape of the result. That words are kept is
  stated by `CleanWsWords`.
- Recipients.CollapseBreaks: its own contract says only that no break remains. That
  words are kept is stated by `CollapseBreaksWords`.
- Recipients.GlueFrom: its own contract says only that no break is introduced. What one
  match does is stated by `GlueAtStep`, `GlueKeepsComma` and `GlueFromNoComma`.
- Recipients.CollapseLongRuns: its own contract gives the shape of the result. That words
  are kept is stated by `CollapseLongRunsWords`. A lone whitespace character is kept
  as is, even a non-space one.
- Recipients.NormalizeGlue: its own contract gives the shape of the result. Word
  preservation (`NormalizeGlueWords`) is proved only for fields without commas. A field
  with commas is described only step by step, through the `GlueFrom` lemmas.
- Recipients.FallbackParts: its own contract says each part is trimmed and separator-free.
  The split itself is stated by `FallbackPiece` and `FallbackSplit`.
- Recipients.ParseNameComma: the docstring's two-recipient example is proved only for one
  recipient (`Name, <email>`).
- Recipients.NameEmailScan: the contract gives bounds and name characters only. What the
  groups capture is stated only through `ParseEntry` and `ParseNameComma`.
- Recipients.BareScan: the contract says only that each address is non-empty and starts
  with an address character.
- MdParse.LazyField: the contract says only that a found To or CC value is non-empty.
  The round trip does not read the To and CC lines back.
- MdParse.ContentField: its own contract says only that a found value is non-empty.
  `RoundTrip.ContentSectionRead` states what it finds in a rendered section.
- Yaml.DateLines: the contract gives when rendering raises, and `YamlOfParsedEmail` gives
  the success case for dates as `parse_emails` produces them. The `date_in` fallback
  lines of read_md_email.py:196-203 are defined but have no lemma of their own.
- RoundTrip.SectionRoundTrip: proved per section and only for readable records. A
  readable record meets all of these conditions:
  - sender and subject are single lines that are not blank;
  - no header value contains `### Content`;
  - the sender, To and CC values do not contain `**Subject**:`;
  - the stripped body is non-empty and has no line starting `---`, `## ` or
    `### Attachments`;
  - the body has no quoted-history separator;
  - in an undated record, no header value, the body or an attachment name
    contains `**Date**:`.

  Splitting a whole document into the same sections is not proved, although
  `MdParse.ChunksCover`, `EmlRender.RenderSectionAt` and `RoundTrip.PreambleDropped`
  give the pieces. The recipients and the parsed date's value depend on the abstract
  `strptime` and on the recipient parser, so they are not compared.

## Findings

| source | as written | input that shows it | evidently intended | confidence | as-written member | corrected member |
|---|---|---|---|---|---|---|
| eml2md.py:18-26 | `decode_content` catches only `UnicodeDecodeError`, so the `LookupError` that an unknown declared charset raises escapes and aborts the file | a text part declaring `charset="unknown-8bit"` | fall back to utf-8 as for undecodable bytes, as `decode_email_header` does at eml2md.py:40 | not executed | EmlDecode.DecodeContentAsWritten (with EmlDecode.UnknownCharsetRaises, EmlExtract.ExtractAsWritten, EmlExtract.ExtractAsWrittenRaises) | EmlDecode.DecodeContent (with EmlExtract.ExtractAsWrittenAgrees) |
