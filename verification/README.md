# LeetCode solution publisher: formatting layer in Dafny

The application takes a problem statement and a solution. It asks a language
model for the problem's metadata and for an explanation, then commits two
files to a GitHub repository:
`solutions/<folder>/<folder>.<ext>` for the code and
`solutions/<folder>/<folder>.md` for the notes, unless the folder (the
lower-cased, cleaned name) contains `.<ext>` (see "## Findings").

Almost everything it does apart from HTTP calls, user interface and prompts is in
`utils.py`. This project models that file's five pure functions:

- `extract_problem_number`: splits `"<digits>. <name>"` into a number and a name.
- `get_file_extension`: maps a language tag to a file extension.
- `get_folder_and_filename`: builds the zero-padded folder and the file name.
- `create_solution_file`: wraps the code under a header line.
- `create_notes`: renders the markdown notes.

It also models the records of `models.py` that these functions read. It also
models the notes file name that both callers derive from the code file name.

Modules:

- `Models` (models.dfy): `Example`, `ProblemDetails` and `Explanation` as
  immutable datatypes, `Option`, and Python truthiness of an optional number.
- `Strings` (strings.dfy): the Python `str` methods the formatter relies on.
  These are `strip()` over the full `str.isspace()` whitespace set, ASCII
  `lower()`/`upper()`, `replace()`, `join()`, and the
  `for i, x in enumerate(xs, 1): out += ...` loop.
- `Numerals` (numerals.dfy): `int()` of a digit run, `str(n)` and `f"{n:04d}"`.
- `Paths` (paths.dfy): the problem-number split, including the regular
  expression `^(\d+)\.\s*(.+)$` stated as a predicate over match positions.
  Also the extension table, the folder and file names, and the notes file name.
- `Documents` (documents.dfy): the solution file and the notes. The notes are
  a preamble, fourteen fixed sections (header and body) and a footer.

User text is embedded raw, so a section header can also occur inside a
statement or an explanation. `Documents.NotesSectionAt` locates the
occurrences the template writes and does not claim they are the only ones.

## Model

| member | source | states |
|---|---|---|
| Models.Truthy | utils.py:8 | No contract of its own: the Python truth value of an optional number, false for `None` and for `0`. The same test is made at utils.py:37 and utils.py:53. |
| Strings.Strip | utils.py:11 | `strip()` never lengthens the text. What it removes is stated by `Strings.StripSpec`. |
| Strings.StripSpec | utils.py:11 | `strip()` returns the middle slice of the text: no whitespace at either end, and only whitespace cut off on either side. |
| Strings.StripIdempotent | utils.py:13 | Stripping stripped text changes nothing. |
| Strings.StripSkipsSpaces | utils.py:13 | Leading whitespace in front of a suffix does not change what `strip()` makes of it. |
| Strings.Lower | utils.py:31 | `lower()` keeps the length. The same call is made at utils.py:35 and utils.py:51. |
| Strings.LowerSpec | utils.py:31 | `lower()` moves exactly the ASCII upper-case letters down by 32, keeps every other character, and leaves no upper-case letter. |
| Strings.LowerIdempotent | utils.py:35 | Lower-casing lower-cased text changes nothing. |
| Strings.LowerOfUpper | utils.py:51 | Lower-casing forgets an earlier upper-casing. |
| Strings.Upper | utils.py:47 | `upper()` keeps the length. The same call is made at utils.py:57. |
| Strings.UpperSpec | utils.py:47 | `upper()` moves exactly the ASCII lower-case letters up by 32, keeps every other character, and leaves no lower-case letter. |
| Strings.ReplaceAll | utils.py:35 | A `replace` whose pattern and replacement have the same length keeps the length. It is also the call at frontend.py:122. |
| Strings.ReplaceOneChar | utils.py:35 | A one-character `replace` rewrites exactly the positions holding that character and keeps every other one. |
| Strings.ReplaceAllNoOccurrence | frontend.py:122 | `replace` leaves text in which the pattern never occurs unchanged. |
| Strings.ReplaceAllSkipsPrefix | frontend.py:122 | A prefix without the pattern's first character is copied and the replacement continues after it. |
| Strings.Join | utils.py:59 | A join of at least one part starts with the first part. |
| Strings.JoinAppend | utils.py:59 | Joining one more part adds the separator and that part at the end. |
| Strings.Enumerate | utils.py:86-87 | No contract of its own: the `for i, x in enumerate(xs, first)` loop that appends one rendered line per item. `EnumerateSplit` and `EnumerateAt` state its order and numbering. |
| Strings.EnumerateSplit | utils.py:86-87 | The enumerate-and-append loop over a concatenation continues the numbering where the first part stopped. |
| Strings.EnumerateAt | utils.py:86-87 | Item `k` is rendered with number `first + k`, after every earlier item and before every later one. |
| Numerals.Decimal | utils.py:53 | `str(n)` is a digit string with no leading zero (except `"0"`) that reads back as `n`. |
| Numerals.DecimalValue | utils.py:13 | `int()` of `k` digits is below `10^k`. |
| Numerals.DecimalValueAppend | utils.py:13 | `int()` of a concatenation of digit strings is the first value shifted by the second's length plus the second. |
| Numerals.DecimalLength | utils.py:38 | `str(n)` has at most `k` digits exactly when `n < 10^k`. |
| Numerals.ZeroPad4 | utils.py:38 | `{n:04d}` is all digits, reads back as `n`, is four long below 10000 and otherwise as long as `str(n)`, and has no leading zero beyond four digits. |
| Numerals.ZeroPad4Width | utils.py:38 | The padded number is exactly four digits iff `n < 10000`; from 10000 on it is `str(n)` untruncated. |
| Numerals.ZeroPad4Example | utils.py:38 | 42 pads to `"0042"`. |
| Paths.ParseNumberedName | utils.py:11-13 | A successful parse has a non-empty digit run followed by a dot. |
| Paths.ParseNumberedNameGroup | utils.py:11-13 | Group 2 of an accepted name is non-empty, starts with a non-whitespace character and has no line feed. |
| Paths.ParseNumberedNameIsRegexMatch | utils.py:11-13 | On stripped text the parse succeeds iff some split matches `^(\d+)\.\s*(.+)$`, iff a greedy split matches, and returns the greedy split's group 1 value and group 2. |
| Paths.GreedyMatchGivesParse | utils.py:11-13 | A greedy match's groups are exactly what the parse returns. |
| Paths.MatchGivesParse | utils.py:11-12 | In stripped text any match at all makes the parse succeed. |
| Paths.MatchStripsLikeGreedy | utils.py:11-13 | Every split the regex admits strips group 2 to the same name as the greedy split. |
| Paths.ExtractProblemNumber | utils.py:6-15 | A truthy number comes back with the name untouched; whenever no number comes back the name is the original, unstripped one. |
| Paths.ExtractProblemNumberMatches | utils.py:11-15 | Without a truthy number, a number comes back iff some split of the stripped name matches `^(\d+)\.\s*(.+)$`. |
| Paths.ExtractProblemNumberGroups | utils.py:11-13 | The number that comes back is group 1's value and the name is group 2 stripped, read off the greedy split. |
| Paths.ExtractProblemNumberNameShape | utils.py:13 | An extracted name is non-empty, stripped and on one line. |
| Paths.NumberedNameRoundTrip | utils.py:11-13 | `"<str(n)>. <name>"` splits back into `n` and `name` for any stripped, non-empty, one-line name. |
| Paths.NumberedHeadingMatch | utils.py:11 | The heading `"<str(n)>. <name>"` is stripped and its greedy split is the numeral, the dot, one space and the name. |
| Paths.ExtractProblemNumberExamples | utils.py:6-15 | `"1. Two Sum"` gives `(1, "Two Sum")`; a zero number counts as absent; a truthy number is kept. |
| Paths.FileExtension | utils.py:17-31 | Total lookup: the fallback `txt` comes back iff the lower-cased tag is not one of the eleven known tags, and a known tag gives its extension. |
| Paths.FileExtensionIgnoresCase | utils.py:31 | Lower-case and upper-case spellings of a tag give the same extension. |
| Paths.FileExtensionExamples | utils.py:27-31 | `"rust"` gives `rs`, `"Python"` gives `py`, an unknown tag gives `txt`. |
| Paths.CleanName | utils.py:35 | The cleaned name has the length of the original. |
| Paths.CleanNameSpec | utils.py:35 | Character by character, spaces and hyphens become `_` and ASCII letters become lower case; no space or hyphen is left. |
| Paths.CleanNameIdempotent | utils.py:35 | Cleaning a cleaned name changes nothing. |
| Paths.PaddedFolder | utils.py:38 | `"{n:04d}_" + clean` is a numbered folder: at least four digits holding `n`, which are its whole leading digit run, then `_`, then the cleaned name. |
| Paths.FolderAndFilename | utils.py:33-44 | The file name is always the folder plus `.` plus the extension. Without a truthy number the folder is the cleaned name; with one it is a numbered folder holding that number. |
| Paths.FolderAndFilenameExample | utils.py:37-39 | Problem 42 gets the folder `0042_<clean name>` and the file `0042_<clean name>.<ext>`. |
| Paths.NotesFilename | frontend.py:122 | No contract of its own. `NotesFilenameOfDotlessFolder`, `NotesFilenameAgreesWithSwap` and `NotesFilenameRewritesInnerExtension` state what it produces. |
| Paths.NotesFilenameOfDotlessFolder | frontend.py:122 | When the folder name has no dot, replacing `.<ext>` by `.md` in the file name gives `<folder>.md`. |
| Paths.NotesFilenameRewritesInnerExtension | frontend.py:122 | For the name `a.js` in JavaScript the file is `a.js.js`, and the replacement gives `a.md.md` instead of `a.js.md`. |
| Paths.SwapExtension | frontend.py:122 | Swapping only the suffix gives a name ending in `.md` whose stem plus `.<ext>` is the code file name. |
| Paths.SwapExtensionGivesFolderNotes | frontend.py:122 | With the suffix swap the notes file is always `<folder>.md`, beside the code file. |
| Paths.NotesFilenameAgreesWithSwap | frontend.py:122 | The written replacement and the suffix swap agree whenever the folder has no dot. |
| Documents.SolutionFile | utils.py:46-47 | The solution file starts with the header `# Solution - <LANGUAGE>` and a blank line, has the code's length plus the header plus one, and ends in a line feed. |
| Documents.SolutionFileRoundTrip | utils.py:46-47 | The code is embedded verbatim: reading the file back gives the code unchanged. |
| Documents.SolutionCodeInverse | utils.py:46-47 | Every file the reader accepts is the solution file of the code it reads. |
| Documents.DifficultyBadge | utils.py:50-51 | Green iff the lower-cased difficulty is `easy`, red iff it is `hard`, yellow for every other value. |
| Documents.DifficultyBadgeIgnoresCase | utils.py:51 | The badge depends only on the lower-cased difficulty. |
| Documents.TagListAppend | utils.py:59 | Tags appear in input order, each in backticks, separated by `, `. |
| Documents.NotesTitleCarriesNumber | utils.py:53-55 | The title is `# <n>. <name>` iff the number is truthy and `# <name>` otherwise. For a truthy number and a non-empty, stripped, one-line name, extracting the number from the title text gives back the same number and name. |
| Documents.CreateNotes | utils.py:49-150 | No contract of its own. The layout is stated by `NotesFrame`, `NotesDifficultyLine`, `NotesTagsLine`, `NotesSectionAt`, `NotesHeadersInOrder` and the per-list lemmas `NotesKeyInsightAt` to `NotesExampleAt`. |
| Documents.NotesFrame | utils.py:55-148 | The notes start with the title line and end with the `Generated on` footer. |
| Documents.NotesDifficultyLine | utils.py:55-57 | Right after the title comes the difficulty line with the badge and the upper-cased difficulty. |
| Documents.NotesTagsLine | utils.py:57-59 | Right after the difficulty line comes the tags line. |
| Documents.NotesRuleAndFooter | utils.py:59-148 | After the tags line comes the `---` rule between blank lines. The first section header starts right after it, and the last section ends where the footer starts. |
| Documents.NotesSectionAt | utils.py:61-146 | Section header `k` is written at its offset and followed by its body, which ends where header `k + 1` starts. |
| Documents.NotesHeadersInOrder | utils.py:61-146 | The fourteen section headers are written in their fixed order, each ending before the next starts. |
| Documents.NotesBodyAt | utils.py:61-146 | The body of section `k` is written right after its header, at `BodyOffset(k)`. |
| Documents.ListItemInBody | utils.py:86-87 | In a text holding a blank line, a list enumerated from 1 and a closing part, item `k` is found right after the blank line and the items before it. |
| Documents.NotesListItemAt | utils.py:84-146 | When section `s` holds a blank line, an enumerated list and a closing part, the notes hold item `k` of the list right after the section's blank line and the items before it. |
| Documents.NotesKeyInsightAt | utils.py:82-87 | In the notes, key insight `k` is the line `<k+1>. <insight>`, two characters after the Key Insights header and after the lines of the insights before it. |
| Documents.NotesHintAt | utils.py:92-97 | In the notes, hint `k` is the line `<k+1>. <hint>`, two characters after the Hints header and after the lines of the hints before it. |
| Documents.NotesApproachStepAt | utils.py:110-114 | In the notes, approach step `k` is the line `<k+1>. <step>`, two characters after the Approach header and after the lines of the steps before it. |
| Documents.NotesEdgeCaseAt | utils.py:135-139 | In the notes, edge case `k` is the line `- <case>`, two characters after the Edge Cases header and after the bullets before it. |
| Documents.NotesExampleAt | utils.py:141-146 | In the notes, example `k` is the block `### Example <k+1>` with its input and output, two characters after the Examples header and after the blocks before it. |
| Documents.NumberedItemAt | utils.py:86-87 | In a numbered list item `k` is the line `<k+1>. <item>`, after all earlier items and before all later ones. |
| Documents.BulletItemAt | utils.py:138-139 | In the edge-case list item `k` is the line `- <item>`, in input order. |
| Documents.ExampleAt | utils.py:143-146 | Example `k` is the block `### Example <k+1>` with its input and output in backticks, in input order. |
| Documents.RenderSpan | utils.py:55-148 | In a document made of a preamble, sections and a closing part, the sections start right after the preamble and end right where the closing part begins. |
| Documents.RenderSectionAt | utils.py:55-148 | In a document made of a preamble, sections and a closing part, section `k` sits at its offset, header then body. |
| Documents.OffsetsInOrder | utils.py:55-148 | Each section ends before any later section starts. |
| Documents.SectionsSplit | utils.py:55-148 | The text of a concatenation of sections is the concatenation of their texts. |

## Left out

- The Streamlit front end, the FastAPI routes, the GitHub REST calls and base64 encoding in `frontend.py` and `app.py` are left out. The one pure step they share, the notes file name, is modelled as `Paths.NotesFilename`.
- `llm.py`, the prompts and the output parsers are left out. They are calls to a language model with no deterministic behaviour to state.
- Pydantic validation, the `Field` descriptions, `GithubConfig`, `LeetcodeSolution` and its `as_form` form glue are left out. Only the fields of the three records the formatter reads are modelled.
- `datetime.now()` in the notes footer is read from a clock. `Documents.CreateNotes` takes the formatted time as a parameter.
- Models.ProblemDetails: the problem number is a `nat`, so negative numbers are excluded. Python treats them as truthy and would format them with a minus sign (`-005`).
- Strings.Lower: `lower()` and `upper()` map ASCII letters only. Python maps all Unicode letters.
- Strings.LowerSpec: states the ASCII mapping only. Python also lowers other letters, for example `"Ä".lower()` is `"ä"`.
- Strings.Upper: maps ASCII letters only, so the length is kept. In Python `"ß".upper()` is `"SS"`, which is longer.
- Strings.UpperSpec: states the ASCII mapping only. In Python `"ß".upper()` is `"SS"` and `"ä".upper()` is `"Ä"`.
- LowerOfUpper: holds for the ASCII mapping only. In Python `"ß".upper().lower()` is `"ss"`, while `"ß".lower()` is `"ß"`.
- FileExtensionIgnoresCase: the upper-case half holds for the ASCII mapping only. In Python `get_file_extension("ſql")` is `txt`, but `"ſql".upper()` is `"SQL"`, which gives `sql`. The dotless `ı` in `"javascrıpt"` behaves the same way.
- CleanName: keeping the length holds for the ASCII mapping only. In Python `"İ".lower()` is two characters long, so the cleaned name can be longer than the original.
- CleanNameSpec: the position-by-position map holds for the ASCII mapping only. A name holding `"İ"` shifts every later position in Python's result.
- Paths.FileExtension and Documents.DifficultyBadge are not affected by the ASCII-only `lower()`. Their keys are all ASCII. Outside ASCII, only U+0130 and U+212A lower-case to text that contains ASCII letters. U+0130 gives `i` followed by a combining dot, and U+212A gives `k`. Neither result can complete a key, so Python and the model pick the same entry or the same fallback.
- Numerals.DecimalValue: converts digit runs of any length. Python 3.11 and later (and the 3.10.7 and 3.9.14 security releases) raise `ValueError` when `int()` or `str()` meets more than 4300 digits. That error path is not modelled at utils.py:13 (`int(match.group(1))`), at utils.py:38-39 (`f"{problem_number:04d}"`) or at utils.py:53. For example, the name `"1"*4301 + ". x"` makes the source raise, while `Paths.ExtractProblemNumber` returns a number and `"x"`. `Numerals.Decimal` and `Numerals.ZeroPad4` are total in the same way.
- Paths.ParseNumberedName: `\d` and `int()` accept ASCII digits only. Python also accepts other Unicode decimal digits. `\s` and `strip()` use the full Python whitespace set.
- Paths.ParseNumberedName: this is only a faithful model of `re.match` on stripped text, which is the only text it is given. On unstripped text, `$` could also match before a final line feed.

## Findings

| source | as written | input that shows it | evidently intended | confidence | as-written member | corrected member |
|---|---|---|---|---|---|---|
| frontend.py:122 (same at app.py:124) | `filename.replace(f".{extension}", ".md")` rewrites every occurrence of `.<ext>`, including ones inside the folder, which is the lower-cased, cleaned problem name (so `A.JS` is caught too) | name `a.js`, language JavaScript: the code file is `a.js.js` and the notes file becomes `a.md.md` | only the extension suffix is swapped, so the notes file is `a.js.md`, next to the code file | medium, not executed | Paths.NotesFilenameRewritesInnerExtension | Paths.SwapExtension |
