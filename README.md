# Verified model of the answer builder of a retrieval-based Q&A app

The application answers Turkish questions about a document collection
without a language model. It retrieves up to three passages, joins them
into one context, and builds a template answer from that context. It also
shows as detailed results the passages whose cleaned text is longer than 50
characters; cleaning removes HTML tags only from a passage with at least
three of them. This project
models the text processing of that pipeline and proves what it guarantees:

- `clean_html_tags` (module `Cleaner`) decides whether a text is HTML by
  counting matches of `<[^>]+>`. With three or more matches it deletes
  them, collapses every whitespace run to one space and strips both ends.
  The regular expression is modelled as a left-to-right scan (`TagAt`,
  `FindTags`, `RemoveTags`), which cuts the text into the matches and the
  gaps between them (`Gaps`).
- `generate_response` (module `Responder`) works in four steps:
  - It cleans the context, cuts it into lines, and keeps the stripped lines
    that look like prose: at least ten characters, not a link, no "badge",
    more than three words.
  - It joins the first five kept lines. When nothing is kept it falls back
    to the first 500 characters of the cleaned context.
  - It picks a template by the first keyword group the lower-cased question
    mentions.
  - It cuts the body to that template's length and appends the template's
    note.

  The line filter is the loop of the source (`GenerateResponse`), proved
  equal to the functional specification `Response`.
- The two pure steps of `user_input` (module `Passages`) are joining the
  passages with line breaks, and choosing which cleaned passages are long
  enough to be shown.
- The Python string built-ins these rely on (module `Text`) are defined
  over `string`, a sequence of code points, as a Python `str` is:
  `str.isspace` and `\s`, `strip`, `split()`, `split('\n')`, `join`,
  `startswith`, `in`, slicing and `lower`.

Whitespace is the set of characters CPython treats as whitespace in `\s`,
`str.strip` and `str.split`. This includes the Unicode space separators,
not only ASCII.

The comment at app.py:77 says a kept line has "at least 3 words". The code
requires `len(line.split()) > 3`, so at least four words. The model follows
the code (`MinWords` is 3 and the test is `>`).

## Model

| member | source | states |
|---|---|---|
| Cleaner.TagAt | app.py:21 | the length of the `<[^>]+>` match starting at the first character, 0 if none; a match found is a whole tag (`<`, at least one non-`>`, `>`), and it is the only prefix of the text that is a tag |
| Cleaner.TagAtZero | app.py:21 | no match starts at the first character exactly when the text is empty, does not start with `<`, has no `>` after it, or has `>` right after it |
| Cleaner.FindTags | app.py:21 | `re.findall` as a non-overlapping left-to-right scan; every element it reports is a whole tag |
| Cleaner.FindTagsEmpty | app.py:21 | the scan reports nothing exactly when no match starts at any position of the text |
| Cleaner.Gaps | app.py:21-26 | the text between the matches the scan reports: one more gap than there are matches |
| Cleaner.GapsInterleave | app.py:21 | the gaps and the matches, put back in turn (`Interleave`), are the text: the scan loses and adds nothing |
| Cleaner.GapsScan | app.py:21 | the gaps and matches meet `IsScan`: no match starts at any position inside a gap (reading on into the rest of the text), and each match is the non-empty match of `<[^>]+>` that starts where its gap ends |
| Cleaner.ScanUnique | app.py:21 | any decomposition of the text into gaps and matches that meets `IsScan` is the scan's own: the matches and their number are determined by the text |
| Cleaner.RemoveTags | app.py:26 | `re.sub` deletes exactly the characters of the matches the scan reports, leaves no match behind, and introduces no character; a character the scan steps over is kept |
| Cleaner.RemoveTagsIsGaps | app.py:26 | `re.sub` with an empty replacement leaves exactly the gaps between the matches, in order |
| Cleaner.TagFreeCollapse | app.py:26-27 | collapsing whitespace in a text without matches creates none |
| Cleaner.TagFreeStrip | app.py:26-28 | stripping a text without matches creates none |
| Cleaner.SingleSpacedStrip | app.py:27-28 | stripping a single-spaced text keeps it single-spaced |
| Cleaner.Clean | app.py:18-28 | fewer than 3 matches: the text is returned unchanged; otherwise the result is the words of the text left after deleting the matches, joined by single spaces; it has no match, every whitespace character is a plain space with no whitespace after it, and no whitespace at either end; never longer than the input |
| Cleaner.CleanIdempotent | app.py:18-28 | cleaning a cleaned text changes nothing |
| Cleaner.CleanedHasNoNewline | app.py:25-28 | when cleaning fires, the result holds no line break |
| Text.LStrip | app.py:28 | `lstrip` drops exactly the leading whitespace: the result is a suffix, all dropped characters are whitespace, and the result does not start with whitespace |
| Text.LStripKeepsText | app.py:28 | `lstrip` keeps every non-whitespace character |
| Text.RStrip | app.py:28 | `rstrip` drops exactly the trailing whitespace: the result is a prefix, all dropped characters are whitespace, and the result does not end with whitespace |
| Text.Strip | app.py:28 | `strip` never lengthens and leaves no whitespace at either end |
| Text.StripIsSlice | app.py:28 | `strip` leaves the slice of the text between its leading and trailing whitespace runs |
| Text.StripTrimmed | app.py:73 | stripping a text without whitespace at its ends returns it unchanged |
| Text.Collapse | app.py:27 | `re.sub(r'\s+', ' ', _)` never lengthens, and starts with a space exactly where the text starts with whitespace |
| Text.CollapseIsSingleSpaced | app.py:27 | after collapsing, every whitespace character is a plain space, and no two whitespace characters are adjacent |
| Text.CollapseKeepsText | app.py:27 | collapsing keeps the non-whitespace characters, in order |
| Text.CollapseChars | app.py:27 | collapsing introduces no character other than a space |
| Text.CollapseSingleSpaced | app.py:27 | collapsing a single-spaced text changes nothing |
| Text.CollapseLStrip | app.py:27-28 | collapsing commutes with stripping the leading whitespace |
| Text.Split | app.py:69 | `split('\n')` gives at least one piece, no piece holds the separator, and joining the pieces with it gives the text back |
| Text.SplitWithoutSeparator | app.py:69 | a text without the separator splits into itself alone |
| Text.SplitJoin | app.py:69 | splitting undoes joining when no part holds the separator |
| Text.Words | app.py:77 | `split()` yields non-empty words without whitespace |
| Text.WordsKeepText | app.py:77 | the words together hold every non-whitespace character of the text, in order |
| Text.WordsJoined | app.py:77 | the words joined by single spaces are the text collapsed and stripped |
| Text.OccursWithin | app.py:99 | what occurs inside an occurrence of a substring occurs in the text |
| Text.Take | app.py:83 | `s[:n]` has length `min(len(s), n)` and is a prefix of `s` |
| Text.LowerChar | app.py:85 | lower-casing one character gives one or two characters |
| Text.Lower | app.py:85 | lower-casing never shortens |
| Text.LowerAppend | app.py:85 | lower-casing works character by character over concatenation |
| Text.LowerIdempotent | app.py:85 | lower-casing twice is lower-casing once |
| Text.LowerDotlessI | app.py:85 | lower-casing produces a dotless "ı" only where the text already had one |
| Responder.Keep | app.py:73-78 | a line contributes at most one line, and what it contributes is stripped and meets `IsMeaningful` (the four tests of app.py:75-77) |
| Responder.KeepCases | app.py:73-78 | skipped lines (too short, a link, a badge) and lines of at most three words contribute nothing; any other line contributes itself, stripped |
| Responder.KeptLines | app.py:70-78 | no more kept lines than lines; each kept line is stripped, at least 10 characters, not starting with "http", without "badge" in any case, with more than 3 words |
| Responder.KeptLinesAppend | app.py:72-78 | each line is judged on its own: the lines kept from `a + b` are those kept from `a` followed by those kept from `b`, in order |
| Responder.KeptLinesSingle | app.py:72-78 | one line is kept, stripped, exactly when it meets `IsMeaningful` once stripped |
| Responder.FirstLines | app.py:80 | `[:5]` keeps the first `min(5, n)` kept lines |
| Responder.FallbackWhenNothingKept | app.py:80-83 | the body `MeaningfulText` falls back to the first 500 characters of the cleaned context when no line was kept; otherwise it is the join of the first five kept lines and starts with the first kept line |
| Responder.Classify | app.py:85-101 | the chosen group is mentioned by the lower-cased question (unless it is the default), and no group tested before it is mentioned |
| Responder.MentionsKeywords | app.py:87-99 | a group is mentioned exactly when one of the keywords tested for it occurs in the question; the default group has none |
| Responder.DefinitionWins | app.py:87-88 | a question gets the definition template exactly when its lower-cased form mentions "nedir" or "ne demek", whatever else it mentions (e.g. "rag") |
| Responder.StorageMentionsRag | app.py:99 | "rag" is matched as a substring, so a question containing "storage" mentions the RAG group |
| Responder.UpperNasilDoesNotMatch | app.py:85-90 | a question without its own "ı" (e.g. "NASIL") never contains "nasıl" once lower-cased |
| Responder.AnswerShape | app.py:87-103 | the answer `Answer` is a prefix of the body, at most as long as the template's limit (400/450/400/380/350/500), followed by `"... [" + note + "]"`; it is never empty |
| Responder.CleanedContextIsOneLine | app.py:66-83 | when cleaning fires, the cleaned context splits into one line, at most that line is kept, and the body is the whole cleaned context if it is meaningful, its first 500 characters otherwise |
| Responder.OneLine | app.py:69-83 | a stripped text without line breaks is one line: kept whole when meaningful, otherwise the body falls back to its start |
| Responder.GenerateResponse | app.py:61-103 | the loop over the lines with its `continue` and `append` builds exactly the kept lines, and the answer equals the specification `Response` (clean, `MeaningfulText`, `Classify`, `Answer`) |
| Passages.AssembleContext | app.py:122 | joining passages with `"\n"`: when no passage holds a line break, splitting the context on line breaks gives the passages back |
| Passages.CleanAll | app.py:135-136 | each passage is cleaned, in order |
| Passages.Select | app.py:135-140 | for texts already cleaned: a text is shown, with its 1-based number, exactly when it is longer than 50 characters; numbers increase |
| Passages.Details | app.py:135-140 | a passage is shown, with its 1-based number and its cleaned text, exactly when that text is longer than 50 characters; numbers increase |

## Left out

- The Streamlit interface (app.py:146-241): page set-up, sidebar, buttons, session state, example questions and the debug expander. It is presentation only.
- `get_text_chunks` (app.py:31-45): it calls a LangChain loader and text splitter whose code is not part of this model.
- `get_vector_store` and the similarity search in `user_input` (app.py:48-58, 106-117): HuggingFace embeddings and FAISS, a floating-point nearest-neighbour search. The passages appear in the model as a parameter (`Passages.AssembleContext`, `Passages.Details`) of any length, not only up to the three the search returns.
- File-system state (`os.path.exists`, `shutil.rmtree`, `save_local`, `load_local`), `load_dotenv` and the unused prompt and chain imports: I/O and configuration.
- The `try`/`except` inside `user_input` (app.py:107, 142-143), the status message built from the question and the number of passages found (app.py:119), and the rendering of the answer and the expanders by `st.write`, `st.expander`, `st.info`: presentation text. Of the expander titles only the 1-based number is modelled, in `Passages.Detail`.
- Text.LowerChar: maps ASCII, Latin-1 and Latin Extended-A capitals as Python does (including U+0130 to "i" followed by U+0307, and U+0178 to U+00FF), and the Kelvin sign U+212A to "k" and the Angstrom sign U+212B to "å". Every other character is left unchanged, whereas Python lower-cases many of them too (Latin Extended-B and Latin Extended Additional capitals such as U+1E02, Greek, Cyrillic, fullwidth forms and others). Every code point that Python lowers into a letter of a keyword or of "badge" is covered (outside Latin-1 and Latin Extended-A, the only one is U+212A), so the substring tests of app.py:75 and app.py:87-99 give the same results in the model.
- Text.Lower: inherits the limit of `Text.LowerChar` above.
