# AI Resume Builder — a model of the application's deterministic core

The AI Resume Builder is a Streamlit application (`app.py`) that produces
reports with hosted language models: a skill-gap analysis of a resume against
a job description, with course recommendations for the skills it finds
missing; a generated resume rendered as a PDF; and a career chatbot.
Everything it asks of a model is free text. The logic that decides what to
send, and what to make of the replies, is ordinary deterministic code. This
project models that code in Dafny and proves what it does:

- `SkillGap`: `extract_missing_skills`. A two-state line scanner over the
  analysis text.
  - While searching, a line mentioning "missing" and "skill" starts capture.
  - While capturing, a line mentioning "verdict" ends the scan. Every other
    line is cleaned into an entry: list marker and `**` removed, text after
    `:` dropped, kept when non-empty and under 80 characters.
  - The result is de-duplicated, keeping first occurrences.
  - The scanner is a method with a loop, proved against the recursive
    functions `Search`/`Capture`.
- `Courses`: `recommend_courses` and the catalog column-rename loop.
  - Recommender: a loop over the skills. It filters rows by case-insensitive
    containment in either direction, drops repeated course names (first row
    kept) and keeps the first two rows.
  - Rename loop: three tests per column, a later test overriding an earlier
    one.
- `PdfRender`: the pre-processing inside `create_pdf`.
  - The theme colour parse: `lstrip('#')`, three clamped two-character slices,
    Python's `int(…, 16)` with its surrounding whitespace (which, unlike
    `strip`, excludes U+001C–U+001F), sign, `0x` prefix and underscore
    grammar, and black on any failure.
  - The per-line loop: heading levels 1–3 in the theme colour, and body lines
    with `**` removed, `* ` turned into `• `, and Latin-1 replacement applied.
- `Gateway`: `generate_with_fallback` and `query_llm`.
  - Routing by the `groq/` prefix, and the "no Groq key" sentinel.
  - `models/` prefix removal, and the single fallback to `gemini-1.5-flash`
    when the error text contains "404" or "not found".
  - Wrapping of errors as "Error generating content: …".
- `ResumeImport`: the fence stripping `parse_resume_to_json` applies before
  `json.loads`.
- `Chat`: one turn of the chatbot.
  - A `ChatSession` class whose `messages` field is the transcript.
  - The history prompt, built by a loop.
  - Attachment handling: a PDF's text is appended; an image is passed along;
    an image that cannot be opened ends the turn without a reply.
- `Strings`, `Sequences`, `Wrappers`: the Python string and list operations
  the source relies on (`strip`, `split`, `replace`, `in`, `lower`,
  `dict.fromkeys`), stated once and proved once.

The hosted models are a parameter. `respond: Call -> Outcome` says what each
request produces: a reply, a raised error, or a reply whose `.text` cannot be
read. Whether a Groq client exists is the parameter `hasGroqClient`. What a
PDF or image upload yields is part of the `Attachment` value.

## Model

| member | source | states |
|---|---|---|
| `SkillGap.ExtractMissingSkills` | app.py:332-343 | returns exactly `MissingSkills(text)`; every entry is non-empty, shorter than 80 characters, free of `:` and `**`; no entry twice |
| `SkillGap.ScanLines` | app.py:335-342 | the scanning loop with its `capture` flag collects exactly the entries the searching/capturing state machine `Search` yields, in order |
| `SkillGap.MissingSkillsWellFormed` | app.py:341-343 | every extracted skill is non-empty, under 80 characters, free of `:` and `**`, and none is repeated |
| `SkillGap.KindOfLine` | app.py:337-342 | a line is a heading iff its stripped text mentions "missing" and "skill"; a stop line iff not a heading and it mentions "verdict"; otherwise it yields its cleaned entry exactly when that is non-empty and under 80 characters |
| `SkillGap.ScanStep` | app.py:338-342 | one line moves the scanner as the loop body does: a heading starts (or continues) capture, a verdict while capturing ends everything, a verdict while searching is ignored, an entry is added only while capturing |
| `SkillGap.CleanEntryShape` | app.py:341 | the cleaned text of a line contains no `:` and no `**` |
| `SkillGap.ClassifyWellFormed` | app.py:341-342 | any entry a line yields is non-empty, under 80 characters and free of `:` and `**` |
| `SkillGap.ClassifyHeading` | app.py:338 | a line is read as a heading exactly when its stripped, lower-cased text contains "missing" and "skill" |
| `SkillGap.SearchWellFormed` | app.py:336-342 | when every line's entry is well formed, so is every entry the scan collects |
| `SkillGap.NoHeadingNoSkills` | app.py:336-343 | a text with no line mentioning both "missing" and "skill" yields no skills at all |
| `SkillGap.SearchSkipsPreamble` | app.py:338-340 | lines before the first heading (verdict lines included) contribute nothing |
| `SkillGap.SearchAtHeading` | app.py:338 | the scan of everything after the first heading is a capture of the lines that follow it |
| `SkillGap.CaptureSkipsHeading` | app.py:338 | a further heading seen while capturing adds nothing and does not stop capture |
| `SkillGap.CaptureStopsAtVerdict` | app.py:339 | nothing at or after a verdict line seen while capturing is collected |
| `SkillGap.CaptureRunsOn` | app.py:340-342 | capture over a block with no verdict line continues unchanged into what follows |
| `SkillGap.CapturePlain` | app.py:340-342 | over ordinary lines, capture collects exactly every line's entry in order |
| `SkillGap.SearchLayout` | app.py:336-342 | preamble without heading, heading, ordinary lines, verdict, tail: the scan collects exactly the ordinary lines' entries |
| `SkillGap.BetweenHeadingAndVerdict` | app.py:332-343 | for a text laid out as preamble, heading, body, verdict and tail, the result is the body's cleaned entries de-duplicated in first-occurrence order |
| `SkillGap.KindsAppend` | app.py:334-336 | lines are classified independently: classifying two blocks is classifying each |
| `Sequences.Dedupe` | app.py:343 | `list(dict.fromkeys(xs))`: every result element comes from `xs`, every element of `xs` is in the result, no element twice |
| `Sequences.DedupeFirstOrder` | app.py:343 | the de-duplicated list keeps the order of first occurrences |
| `Strings.SplitJoin` | app.py:334 | splitting the join of separator-free parts gives back the parts |
| `Strings.SplitShape` | app.py:334 | `split` yields at least one part, no part holds the separator, and joining the parts gives back the text |
| `Strings.StripIsSlice` | app.py:337 | `strip` returns the piece of the text after its leading whitespace, followed only by whitespace, and neither starting nor ending with whitespace |
| `Strings.RemoveBoldLeavesNone` | app.py:341 | after `replace("**", "")` no `**` is left |
| `Strings.BulletKeepsNoBold` | app.py:308 | replacing `* ` by `• ` in text without `**` creates no `**` |
| `Strings.ReplaceSameLength` | app.py:308 | a replacement of the same length keeps the text's length |
| `Courses.RecommendCourses` | app.py:345-353 | no recommendations for an absent or empty catalog; the `.str` `AttributeError` exactly when some skill is asked of a non-empty catalog whose Skill column holds no text; otherwise a skill is a key iff it is among the inputs and some row matches it, and its value is the links of its chosen rows, one or two of them |
| `Courses.CollectRecommendations` | app.py:348-353 | the loop over the skills: a skill is a key iff it is among the inputs and some row matches it, holding the links of its chosen rows, one or two of them |
| `Courses.MatchingRowsSpec` | app.py:350 | the selected rows are a subsequence of the catalog, all match, and every matching row is selected |
| `Courses.MatchingRowsCount` | app.py:350 | every matching row is selected as often as it occurs in the catalog, and no other row is selected |
| `Courses.MatchingRowsEmpty` | app.py:350-351 | the selection is empty iff no row matches the skill |
| `Courses.FirstByNameSubseq` | app.py:352 | `drop_duplicates('Course Name')` keeps a subsequence of the rows |
| `Courses.FirstByNameDistinct` | app.py:352 | the rows kept have pairwise different course names |
| `Courses.FirstByNameFirst` | app.py:352 | each kept row is the first row carrying its course name |
| `Courses.FirstByNameCovers` | app.py:352 | every course name of the input remains represented |
| `Courses.TwoNamesKept` | app.py:352 | two rows with different names leave at least two rows after de-duplication |
| `Courses.ChosenSize` | app.py:350-352 | a skill's chosen rows are non-empty iff some row matches it, and at most two |
| `Courses.ChosenRows` | app.py:350-352 | the chosen rows have distinct names, all match the skill, and appear in catalog order |
| `Courses.ChosenFirstOfName` | app.py:352 | each chosen row is the first matching row with its course name |
| `Courses.ChosenNames` | app.py:350-352 | the recommended course names are the first two distinct course names among the matching rows, in order |
| `Courses.FirstByNameSnoc` | app.py:352 | a row added at the end is kept exactly when its name was neither seen nor in the rows before it |
| `Courses.FirstByNameNames` | app.py:352 | the names of the kept rows are the distinct names of the rows in first-occurrence order |
| `Courses.ChosenTwo` | app.py:352 | two matching rows with different names give exactly two recommendations |
| `Courses.BuildRenameMap` | app.py:391-395 | a column is renamed iff its lower-cased name mentions "url", "course" or "skill", and it is renamed to "URL", "Course Name" or "Skill" with that precedence |
| `Courses.CanonicalTargets` | app.py:393-395 | the canonical names "URL", "Course Name", "Skill" are renamed to themselves |
| `Courses.RenameIdempotent` | app.py:391-396 | renaming an already renamed column changes nothing |
| `PdfRender.RenderDocument` | app.py:281-311 | one instruction per line of the text, each the rendering of that line in the parsed theme colour |
| `PdfRender.RenderLines` | app.py:291-311 | the per-line loop renders every line in order, all with the same colour |
| `PdfRender.HexValueShort` | app.py:283 | at most two hex digits are worth at most 255, one at most 15 |
| `PdfRender.ParseShortBounds` | app.py:283 | a slice of at most two characters that `int(…, 16)` accepts parses to a value in -15..255 |
| `PdfRender.ThemeBounds` | app.py:282-284 | every colour component lies in -15..255, whatever the theme string |
| `PdfRender.ParseHex2` | app.py:283 | two lower-case hex digits parse back to the byte they spell |
| `PdfRender.HashesIgnored` | app.py:282 | leading `#` characters do not change the colour |
| `PdfRender.ThemeRoundTrip` | app.py:282-284 | a `#rrggbb` colour written in lower-case hex is read back as exactly those three bytes |
| `PdfRender.DefaultTheme` | app.py:377 | the theme "#4b6cb7" the application passes gives (75, 108, 183) |
| `PdfRender.ShortThemeIsBlack` | app.py:283-284 | a theme of at most four characters after the `#`s (such as "#fff") leaves a slice empty and falls back to black |
| `PdfRender.NegativeComponents` | app.py:283 | signed slices are accepted: "-f-f-f" gives (-15, -15, -15) |
| `PdfRender.SpaceSkipped` | app.py:283 | a space in front of a digit is skipped: " f0000" gives (15, 0, 0) |
| `PdfRender.SeparatorNotSkipped` | app.py:283-284 | the separator U+001C is not skipped by `int()`: "\x1cf0000" falls back to black |
| `PdfRender.IntTrimShape` | app.py:283 | trimming a literal never lengthens it and keeps one without whitespace at its ends |
| `PdfRender.RenderLevel` | app.py:295-306 | a line is a heading of level k iff it starts with the level-k marker; headings are levels 1 to 3 in the theme colour |
| `PdfRender.HeadingTitle` | app.py:295-306 | a marker followed by a title without that marker renders the title |
| `PdfRender.Latin1KeepsNoBold` | app.py:309 | Latin-1 replacement creates no `**` |
| `PdfRender.BodyText` | app.py:307-311 | body text holds only characters up to U+00FF and no `**`, and keeps its length when the line had no `**` |
| `PdfRender.BulletLine` | app.py:308-309 | a markdown bullet `* ` is printed as `? `, because the inserted `•` is outside Latin-1 |
| `PdfRender.PlainLine` | app.py:307-311 | a line without `*`, heading marker or non-Latin-1 character is printed unchanged |
| `Gateway.NoGroqClient` | app.py:235-237 | no request is made exactly when a `groq/` model is asked without a Groq client, and then the reply is the sentinel error text |
| `Gateway.ReportsLastRequest` | app.py:231-253 | the caller gets the reply of the last request made, or that request's error as "Error generating content: <message>" |
| `Gateway.FallbackOnlyOnNotFound` | app.py:207-229 | at most two requests; a second one iff on the Gemini path the first raised an error mentioning "404" or "not found", and it asks `gemini-1.5-flash` with the same prompt and image |
| `Gateway.FirstRequest` | app.py:212-245 | the first request goes to Groq (without the image) exactly for a `groq/` name, to Gemini with the prompt and image otherwise |
| `Gateway.PrefixDropped` | app.py:212-243 | a `groq/` or `models/` prefix in front of a model name is removed before the request |
| `Gateway.GeminiNameUnchanged` | app.py:212-217 | a Gemini name without "models/" is requested as given, with the prompt and image |
| `ResumeImport.FenceIsSlice` | app.py:271-276 | the text handed to the JSON parser is a contiguous piece of the stripped reply |
| `ResumeImport.FencedRoundTrip` | app.py:272-276 | a reply fenced as "```json … ```" gives back exactly the text between the fences |
| `ResumeImport.BareFenceKept` | app.py:273-276 | a bare "```" opening fence is not removed; only the closing one is |
| `ResumeImport.UnfencedReply` | app.py:272-276 | a reply without fences is only stripped |
| `Chat.ContextPrompt` | app.py:578-579 | the loop builds the preamble followed by one "ROLE: content" line per message, oldest first |
| `Chat.HistoryAppend` | app.py:579 | one more message adds exactly its line to the end of the history |
| `Chat.HistoryExtends` | app.py:579 | the history of a longer transcript extends the history of its prefix |
| `Chat.PromptRepeatsMessage` | app.py:574-590 | the user's text reaches the model twice: as the last history line and as the closing `USER:` line |
| `Chat.FinalPromptShape` | app.py:585-588 | without a PDF the typed text is sent as is; with one, the PDF text follows a fixed header; the typed text always comes first |
| `Chat.ChatSession.constructor` | app.py:555 | a session starts with an empty transcript |
| `Chat.ChatSession.Turn` | app.py:574-594 | the user message is always recorded; no reply iff an attached image cannot be opened; otherwise the reply is the gateway's answer to the turn prompt, with the image, and it is recorded after the user message; every assistant message follows a user message |

## Left out

- The Streamlit user interface: layout, CSS, widgets, `st.session_state` beyond the chat transcript, and the markdown rendering of messages.
- The API-key lookup and client configuration (`get_api_key`, `genai.configure`, the Groq client constructor). Whether a Groq client exists is the parameter `hasGroqClient`.
- The Gemini and Groq network calls. They are the parameter `respond`. A Groq reply whose content is `None` is not modelled: a reply is always text.
- The model name. The application fixes it to "gemini-2.5-flash"; here it is a parameter.
- The prompt templates of `analyze_skill_gap`, `generate_resume` and `parse_resume_to_json`. They are fixed strings around user text.
- `json.loads` and the resume-data merge. Only the fence stripping before the parser is modelled.
- PyPDF2 text extraction. Its result is the `pdfText` field of the attachment.
- PIL `Image.open`. An opened image is an opaque `Image`, and a failed open is `None`.
- FPDF itself: fonts, cell layout, page breaks, and the byte output of `pdf.output(...).encode('latin-1')`. In particular, heading text is not Latin-1-sanitised, and non-Latin-1 characters in it would fail only at output. That is not modelled.
- The `ascii`/`ignore` branch after the Latin-1 encoding in `create_pdf`. Encoding with `replace` cannot raise, so the branch is unreachable.
- pandas: reading the CSV file, `DataFrame.rename` itself, and the default catalog. The catalog is a sequence of rows. A missing `Skill` column (a `KeyError`) is not modelled. Which cells hold text is part of each row: a Skill column read as numbers or as all NaN has no text cell. A course name or URL cell is text; an empty one is not distinguished.
- The rename map is built only for the bundled CSV file, not for an uploaded one. The model states the loop, not the choice of file.
- `RecommendCourses`: the result is a map, so the insertion order of the Python dictionary is not modelled. The order of each skill's list of links is modelled.
- `Strings.Lower`: lower-casing covers ASCII letters only. Python's full Unicode case mapping is not modelled.
- `SkillGap.CleanEntry`: the regex class `\d` covers ASCII digits only. Python's `\d` also matches other Unicode decimal digits. Whitespace is Python's full `str.isspace` set.
- `PdfRender.ParseHexInt`: it accepts ASCII hex digits only. Python's `int` also accepts other Unicode decimal digits.
