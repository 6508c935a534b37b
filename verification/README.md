# Audio extractor backend: the pure core, in Dafny

`server.py` is a Flask backend that separates an uploaded song into stems, asks a
language model for time-stamped lyrics, and renders a karaoke video with ffmpeg. Around the
HTTP, process and file-system plumbing it holds a handful of deterministic string and list
transformations. This project models those, and proves what they promise:

- **Upload names** (`filenames.dfy`): `sanitize_filename` replaces every character outside
  `[\w\-.]` by `_`. `\w` is a parameter `word` (a character class), so every fact says
  which property of `\w` it needs; `AsciiWord` is its ASCII reading.
- **Job folders and stem URLs** (`jobs.dfy`): `/process` stores the stems in a folder named
  after the sanitized upload without its last extension (`os.path.splitext`, with its
  leading-dots rule, in both the POSIX and the Windows flavour) and answers with one
  `/stems/<folder>/<stem>.wav` URL per stem. The endpoint itself is a function of the
  upload name and of the outcome of the separation tool.
- **Code-fence clean-up** (`fences.dfy`): the lyrics endpoint removes
  `` ```json\s*|\s*``` `` from the model's reply with `re.sub` and strips the rest. The
  substitution is modelled as the leftmost scan the regular-expression engine performs,
  trying the two alternatives in order; a corrected pattern is modelled beside it (see
  Findings).
- **Karaoke filter script** (`karaoke.dfy`): each lyric line becomes one `drawtext`
  directive whose text is stripped, cleared of `'`, `:`, `\` and `%`, and wrapped onto two
  lines when longer than 42 characters; the script is `scale=1280:720` and the directives,
  comma-joined.
- **Project listing** (`projects.dfy`): `/list_projects` keeps the directories of the
  output folder, shows `_` as a space, and sorts newest first with Python's stable sort.
- `text.dfy` holds the Python `str` operations these use (`strip`, `split`, `join`,
  `replace`, `find`, `rfind`) and `wrappers.dfy` the `Option`, `Outcome` and `Result`
  types.

Sanitized names are not ASCII-only in general: `\w` in a Python 3 `str` pattern matches
Unicode letters and digits, so the `[A-Za-z0-9_.-]` alphabet holds only under the ASCII
reading of `\w` (`Filenames.SanitizeAscii`). The model follows `server.py` here.

## Model

| member | source | states |
|---|---|---|
| Filenames.Sanitize | server.py:45-46 | the result has the input's length; each character in `[\w\-.]` is kept and every other one becomes `_` |
| Filenames.SanitizeFixpoint | server.py:45-46 | a name is left unchanged exactly when every character is in `[\w\-.]` or is `_` |
| Filenames.SanitizeOutput | server.py:45-46 | every character of a sanitized name is allowed or `_`; when `\w` holds `_`, every character is allowed |
| Filenames.SanitizeIdempotent | server.py:45-46 | sanitizing twice is sanitizing once |
| Filenames.SanitizeAscii | server.py:45-46 | under the ASCII reading of `\w`, a sanitized name uses only `[A-Za-z0-9_.-]` |
| Filenames.SanitizeNoSeparator | server.py:45-46 | a sanitized name holds neither `/` nor `\`, so it is a single path component; the names `""`, `.` and `..` among them are the `Jobs.Unsavable` ones |
| Jobs.SplitExt | server.py:56 | `root + ext` is the path; `ext` is empty or a dot followed by no dot and no separator |
| Jobs.SplitExtFindsExt | server.py:56 | `splitext` cuts an extension exactly when the last path component has a dot after a non-dot character |
| Jobs.SplitExtFlavorFree | server.py:56 | on a path without separators the POSIX and Windows `splitext` agree |
| Jobs.SplitExtSingleComponent | server.py:56 | on a separator-free name the root is the name up to an optional final dot-led extension holding no other dot, cut exactly when the name has an extension |
| Jobs.JobIdSpec | server.py:52-56 | the folder id is the sanitized name up to an optional final extension, cut exactly when the sanitized name has a dot after a non-dot character |
| Jobs.JobIdKeepsNonDot | server.py:56 | cutting an extension leaves a non-dot character in the id, so an all-dot id is the whole sanitized name |
| Jobs.JobIdFlavorFree | server.py:56 | the folder id does not depend on the `os.path` flavour the server runs under |
| Jobs.JobIdPlainName | server.py:52-56 | the upload `root.ext` of word characters is stored in the folder `root` |
| Jobs.JobIdLeadingDots | server.py:52-56 | a name of leading dots and word characters (a hidden file) is its own folder id |
| Jobs.JobIdNoSlash | server.py:52-57 | a folder id never holds `/` |
| Jobs.JobFolderInside | server.py:52-59 | the folder id is one path component below the output folder (no separator, not empty, `.` or `..`) exactly when the uploaded name is not empty, `.` or `..` (the names `file.save` can never write), so the `rmtree` of an older folder stays inside the output folder |
| Jobs.FileOf | server.py:69-73 | a recognised stem file name is the name of the stem it is read as |
| Jobs.StemUrlRoundTrip | server.py:69-73 | the URL of a stem of a folder without `/` reads back to that folder and that stem |
| Jobs.ParseStemUrlSound | server.py:69-73 | whatever reads as a stem URL is the URL built from what it reads as |
| Jobs.UnsavableSanitized | server.py:52-54 | the sanitized name is empty, `.` or `..` exactly when the uploaded name is |
| Jobs.ProcessAudio | server.py:49-76 | no file part answers 400 `Falta archivo`; a name `file.save` cannot write escapes uncaught; a failing separation answers 500 with its message; otherwise the answer is the success body of the upload's folder id, and it is a success exactly in that last case |
| Jobs.AnswerUrls | server.py:66-73 | every URL of the success body reads back to the body's folder and to its stem; backing vocals and instrumental both name `other.wav` |
| Jobs.ProcessUrls | server.py:49-76 | a successful `/process` answer names the upload's folder id, and each of its URLs reads back to that folder and its stem |
| Jobs.ProcessPlainName | server.py:49-76 | uploading `root.ext` succeeds with folder `root`, and each of the five URLs reads back to `root` and its stem |
| Fences.SubAsWrittenNoFence | server.py:113 | the substitution leaves a reply without backticks unchanged |
| Fences.AsWrittenFenced | server.py:113 | a reply `` ```json `` + document + `` ``` `` + whitespace, with no backtick in the document, cleans up to the stripped document |
| Fences.StripFencesPlain | server.py:113 | with either pattern, a reply without backticks is only stripped |
| Fences.AsWrittenLeadingSpace | server.py:113 | whitespace before the opening fence leaves `json` in front of the document |
| Fences.FenceFinding | server.py:113 | the reply `` \n```json\n{}\n``` `` cleans up to `json\n{}` as written and to `{}` with the corrected pattern |
| Fences.SubNoFence | server.py:113 | the corrected substitution leaves a reply without backticks unchanged |
| Fences.StripFencesFenced | server.py:113 | with the corrected pattern, a fenced document surrounded by any whitespace cleans up to the stripped document |
| Karaoke.CleanText | server.py:134-135 | removing quote, colon, backslash and percent one after the other is removing the set of them from the stripped text |
| Karaoke.WrapShort | server.py:138 | a text of at most 42 characters is emitted unchanged, with no line break added |
| Karaoke.WrapLong | server.py:138-141 | a longer text gets exactly one line break; the line before it re-splits to the first half of the words (rounded down), the line after it to the rest, and the whole to the original word list |
| Karaoke.WrapLeadingBreak | server.py:138-141 | a long text with at most one word wraps to a text that starts with the break |
| Karaoke.WrapKeepsOut | server.py:138-141 | wrapping adds only spaces and a line break |
| Karaoke.OverlayTextClean | server.py:134-141 | the overlay text of any lyric holds none of `'`, `:`, `\`, `%` |
| Karaoke.BoundsRoundTrip | server.py:149 | a window `start,end` whose start has no comma reads back to its bounds |
| Karaoke.BoundsSound | server.py:149 | what reads as a window is its two bounds joined by a comma |
| Karaoke.FillRead | server.py:145-150 | a directive whose text has no quote and whose start has no comma reads back to its text and bounds |
| Karaoke.ReadFill | server.py:145-150 | whatever reads as a directive is the directive of what it reads as |
| Karaoke.DrawtextRoundTrip | server.py:126-150 | the `drawtext` directive with the server's font and style reads back to its text and window, for a text without `'` and a start bound without a comma |
| Karaoke.LyricDirectiveWindow | server.py:133-150 | each lyric whose start renders without a comma (every JSON number does) gets a directive that shows that lyric's cleaned text during that lyric's own window |
| Karaoke.LyricDirectiveHello | server.py:134-150 | the lyric `Hello` from 1.0 to 3.5 overlays `Hello` between 1.0 and 3.5 |
| Karaoke.LyricDirectiveDefaults | server.py:134-143 | a lyric with no keys overlays the empty text between 0 and 0 |
| Karaoke.CompileFilterScript | server.py:132-153 | the filter list is the scale filter and then exactly one directive per lyric, in lyric order, and the script is their comma join |
| Karaoke.AppendEach | server.py:132-153 | appending one directive per item after the first filter gives one line per item, in order, and the comma join of the lines |
| Projects.DisplayNameRoundTrip | server.py:213 | a folder name without spaces is recovered from its shown name, which holds no `_` |
| Projects.ShownOne | server.py:213 | one underscore between two plain words is shown as one space |
| Projects.CollectMembers | server.py:209-213 | every directory of the listing gives a project, and every project is a directory of the listing with its shown name |
| Projects.SortByDate | server.py:214 | the sort is a permutation |
| Projects.SortOnDate | server.py:214 | the sort is newest first, and projects with the same date keep their listing order |
| Projects.ListProjects | server.py:207-215 | a missing output folder lists nothing; otherwise the answer is a permutation of the directories' projects, newest first, stable on equal dates, each with `name` its id with `_` shown as a space |
| Projects.ListExample | server.py:209-214 | two folders listed oldest first around a file come out newest first, without the file |
| Text.StripIsSlice | server.py:134 | `strip()` removes whitespace only, and only at the two ends |
| Text.StripIdempotent | server.py:134 | stripping twice is stripping once |
| Text.WordsOfJoin | server.py:139-141 | splitting words joined by spaces gives the words back |
| Text.WordsSplitAt | server.py:139-141 | splitting two texts joined by whitespace is splitting each |
| Text.ReplaceCharRoundTrip | server.py:213 | replacing `a` by `b` is undone by replacing `b` by `a` when `b` did not occur |

## Left out

- Flask routing, request and response objects, `send_file` and `send_from_directory`: HTTP
  plumbing with no logic of its own. Responses are modelled as their status and body.
- The spleeter, ffmpeg and firebase processes and the deploy thread: external processes
  and concurrency. The separation's result is a parameter of `Jobs.ProcessAudio`.
- The language-model calls of the lyrics endpoint, the choice of its audio source
  (server.py:80-91) and `json.loads` of the cleaned reply: a remote service, file lookups
  and a library parser. Only the clean-up of the reply text is modelled.
- Writing the filter file, `os.path.exists`, `os.listdir`, `os.path.isdir` and
  `os.path.getctime`: the listing is an input of `Projects.ListProjects` (entries with name,
  directory flag and creation time, or `None` when the folder does not exist).
- The `/generate_video` and `/generate_video_from_file` routes around the compiler: which
  audio file is used and where the video goes are file-system choices.
- Filenames.Sanitize: `\w` is an abstract character class. The real class in a Python 3
  `str` pattern matches Unicode letters and digits; the `[A-Za-z0-9_.-]` alphabet of
  `Filenames.SanitizeAscii` holds only under the ASCII reading `AsciiWord`.
- Jobs.ProcessAudio: `file.save` is modelled only through the names under which it cannot
  create a file (a sanitized name that is empty, `.` or `..`); other save failures (disk
  full, permissions, a directory of the same name) and the `rmtree` of an older output
  folder are not modelled.
- Jobs.ProcessAudio: the failure message of the separation tool (`str(e)`) is an opaque
  string parameter.
- Jobs.Answer: the constant `'success': True` field of the success body is not carried.
- Karaoke.LyricDirective: a lyric is an object whose three keys are present or missing;
  a `text` that is present but not a string, or a lyric that is not an object, makes
  `line.get(...).strip()` raise, and the video routes answer 500 (server.py:181-182,
  204-205). Those inputs are not represented.
- Karaoke.LyricDirective: the start and end times are carried as the text Python's `str()`
  gives the JSON values (a missing key is the integer `0`, rendered `0`); number
  formatting is not modelled.
- Karaoke.LyricDirectiveWindow: ffmpeg's reading of `between(t,start,end)` (inclusive at
  both ends) is not modelled; the lemma states which bounds the directive carries.
- Karaoke.LyricDirectiveWindow: the read-back holds only for a start time whose text has no
  comma. Every JSON number renders without one, but a JSON string start such as `"1,5"`
  makes server.py:149 emit `between(t,1,5,3)`, whose first comma no longer separates the
  lyric's own bounds; the lemma says nothing about such a lyric.
- The console `print`s of the separation, transcription and lyric-error paths
  (server.py:61, 93, 121): output only, with no effect on any answer.
- Projects.ListProjects: creation times are exact reals; a NaN time and an entry removed
  between `os.listdir` and `os.path.getctime` are not represented.

## Findings

| source | as written | input that shows it | evidently intended | confidence | as-written member | corrected member |
|---|---|---|---|---|---|---|
| server.py:113 | the first alternative of the pattern matches the opening fence only where the fence starts; when whitespace precedes it, the second alternative (whitespace, then three backticks) matches first and removes only the backticks, so `json` stays in the text and `json.loads` rejects it | the reply `` \n```json\n{}\n``` `` cleans up to `json\n{}` | whitespace before the opening fence is removed with it, as with a leading `\s*` on the first alternative, giving `{}` | not executed | Fences.AsWrittenLeadingSpace | Fences.StripFencesFenced |
