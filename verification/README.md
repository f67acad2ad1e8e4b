# Mashup: a Dafny model of the validation, naming and cut-and-merge core

The Mashup program takes a singer's name, a number of videos N and a
duration Y. It downloads N audio tracks from a video search, cuts the first Y
seconds of each, and joins the cuts into one MP3 file. There are two front
ends:

- a command-line program, `102303437.py`;
- a small web application, `webapp/app.py` with `webapp/mashup.py`. It
  validates a form, starts a background job and mails the result as a ZIP
  archive.

This project models the pure, sequential core of both front ends:

- **Text** (`text.dfy`): Python's whitespace set (`str.isspace`, which is also
  `\s` in a `str` pattern) and `str.strip`.
- **Filename** (`filename.dfy`): `sanitize_filename`.
  - `re.sub(<class>+, <replacement>, s)` is a left-to-right scan that turns
    each maximal run into one replacement character.
  - The module also covers the fallback name `output` and the `.mp3`
    suffixing of the command line.
- **IntParse** (`intparse.dfy`): Python's `int(str)`, with `None` where it
  raises. It accepts one sign, ASCII digits and single underscores between
  digits, with whitespace around them. A string holding any of the
  information separators U+001C..U+001F is refused, although `str.strip`
  treats them as whitespace, because CPython's `int` does not skip them.
  It also covers `is_positive_int`.
- **Email** (`email.dfy`): `EMAIL_RE`.
  - A direct definition (first `@`, last `.`) is proved equal to the
    pattern's "there is a split" reading.
  - `re.match` with `$` also matches before a final newline.
- **Acquisition** (`acquisition.dfy`): the outside capabilities and the tail
  of `download_audios`.
  - The outside capabilities are the FFmpeg probe, the search-and-download
    call and the decoder. They are parameters (`Env`).
  - The tail keeps the `*.mp3` names, sorts them in code-point order and
    refuses an empty result.
- **Audio** (`audio.dfy`): audio is a sequence of per-millisecond samples.
  - Each file is cut to `min(len, Y*1000)`.
  - The cuts are concatenated in order.
  - The first file that does not decode aborts the run.
- **Cli** (`cli.dfy`): the `main` of the command line.
  - It runs six checks in a fixed order; the first failure wins.
  - It builds the output name and runs the pipeline.
  - Each way the run can end is a value of `Outcome`.
- **WebApp** (`webapp.dfy`): the `/generate` handler.
  - It reads and strips the fields and runs six checks in a fixed order.
  - A refused form gets a 400 reply; an accepted form gets a 200 reply and
    starts a job.
- **Mashup** (`mashup.dfy`): `generate_mashup_zip` and its `cut_and_merge`.
  - This `cut_and_merge` reads `segments[0]` without a guard, and the model
    proves that an empty list never reaches it.
  - Also modelled: the audio and archive name templates, and the missing
    `zipfile` import (see Findings).

Two facts about the download step shape the model:

- `download_audios` returns the files sorted by name, not in completion
  order (102303437.py:82).
- Any exception from the downloader aborts the run
  (102303437.py:76-80). The program has no "fail only when every item
  fails" policy of its own; per-item retries happen inside the downloader
  (102303437.py:71-72).

## Model

| member | source | states |
|---|---|---|
| Text.Strip | 102303437.py:126-129 | The stripped argument has no whitespace at either end. It is empty exactly when the argument is all whitespace. An argument already without outer whitespace is returned unchanged. |
| Text.StripIsWindow | 102303437.py:126 | `strip` returns a contiguous window of its argument, and everything outside that window is whitespace. |
| Text.StripIdempotent | webapp/app.py:48 | Stripping twice is stripping once. |
| Text.StripPadded | webapp/app.py:48-51 | Stripping is blind to extra whitespace on either side: `strip(a + s + b)` is `strip(s)` for all-whitespace `a` and `b`. |
| Text.StripOfPadded | 102303437.py:126-129 | An argument without outer whitespace, padded on both sides with whitespace, strips back to itself. |
| Filename.RunBecomesOneReplacement | 102303437.py:36 | A maximal run of class characters, with non-class text on both sides, becomes exactly one replacement character. The text on either side is substituted independently. |
| Filename.SqueezeShape | 102303437.py:36-37 | After substitution, each class character is the replacement and is not followed by another class character. Every other character comes from the input. |
| Filename.SqueezeFixesSqueezed | 102303437.py:37 | A string that is already squeezed is left unchanged by the substitution. |
| Filename.SqueezeIdempotent | 102303437.py:36-37 | Applying either substitution twice is the same as applying it once. |
| Filename.SqueezeKeepsOthers | 102303437.py:36 | Every character outside the class survives the substitution. |
| Filename.SqueezeMarksRuns | 102303437.py:36 | A class character in the input leaves its replacement in the output. |
| Filename.SqueezeNoneInClass | 102303437.py:37 | Text with no class character passes through the substitution unchanged. |
| Filename.SqueezeBlank | 102303437.py:37-38 | The substitution yields all-whitespace text exactly when its input was all whitespace. |
| Filename.CleanIsClean | 102303437.py:36-37 | The two substitutions and strips leave no forbidden character and no outer whitespace. Every whitespace character left is a single space between non-space characters. |
| Filename.Sanitize | 102303437.py:35-38 | `sanitize_filename` never returns an empty name. Its result has no forbidden character and no outer whitespace, and each whitespace character in it is one space between non-space characters. |
| Filename.SanitizeBlank | 102303437.py:38 | Cleaning leaves nothing exactly when the name is all whitespace, and then the result is `output`. |
| Filename.FallbackIsClean | 102303437.py:38 | The fallback `output` itself has the sanitised shape. |
| Filename.SanitizeFixesClean | webapp/mashup.py:4-7 | A name that already has the sanitised shape comes back unchanged. The web copy of the function is character for character the same. |
| Filename.SanitizeIdempotent | webapp/mashup.py:4-7 | Sanitising twice is sanitising once. |
| Filename.WithMp3Suffix | 102303437.py:158-160 | The output name ends in `.mp3` in any letter case and starts with the given name. It is unchanged exactly when the name already had the suffix; otherwise exactly `.mp3` is appended. |
| Filename.WithMp3SuffixIdempotent | 102303437.py:159-160 | Suffixing twice is suffixing once. |
| Filename.WithMp3SuffixKeepsClean | 102303437.py:158-160 | Suffixing a sanitised name keeps it sanitised. |
| IntParse.ParseInt | webapp/app.py:15-19 | `int` (and so `valid_int`) refuses any string holding an information separator U+001C..U+001F, and any blank string. |
| IntParse.ParseShow | webapp/app.py:15-19 | `valid_int` of the printed form of any integer, negative ones included, gives that integer back. |
| IntParse.ParseIntShape | webapp/app.py:15-19 | An accepted string holds no information separator. Once stripped it ends in a digit and holds only digits and underscores after an optional sign. A negative value comes from a leading minus, and a leading minus gives no positive value. |
| IntParse.IsPositiveInt | 102303437.py:29-33 | `is_positive_int` holds exactly when `int` succeeds with a value above zero. Then the string has no information separator and, once stripped, is non-empty, starts with no minus and ends in a digit. |
| IntParse.ShowTrimmed | 102303437.py:147-148 | The printed form of an integer has no outer whitespace. |
| IntParse.IsPositiveIntShow | 102303437.py:29-33 | `is_positive_int` holds for the printed form of an integer exactly when that integer is above zero. |
| IntParse.ParseIgnoresPadding | webapp/app.py:49-50 | `int` refuses a string with an information separator; on any other string it gives the same answer as on the stripped string. |
| IntParse.ParseIntPadded | 102303437.py:31 | Whitespace other than the information separators, added on either side, does not change what `int` reads. |
| IntParse.ParseRefusesSeparatorPadding | 102303437.py:31 | `"\x1c5"` strips to `"5"`, yet `int` refuses it. |
| IntParse.ParseTen | 102303437.py:150 | `"10"` parses to 10, the largest refused count. |
| IntParse.ParsePlusSign | 102303437.py:31 | A leading `+` is accepted: `"+12"` is 12. |
| IntParse.ParseUnderscore | 102303437.py:31 | An underscore between digits is accepted: `"1_0"` is 10. |
| IntParse.ParseRefusesText | 102303437.py:30-33 | The empty string and `"abc"` are refused, so `is_positive_int` is false without raising. |
| IntParse.ParseRefusesLooseUnderscores | webapp/app.py:16-19 | A doubled or leading underscore is refused. |
| IntParse.ParseRefusesDecimalPoint | webapp/app.py:16-19 | `"2.5"` is refused. |
| IntParse.TwoDigitText | 102303437.py:147-148 | Any two-digit numeral has no outer whitespace and `int` reads it as its value. |
| IntParse.ThreeDigitText | webapp/app.py:49 | Any three-digit numeral has no outer whitespace and `int` reads it as its value. |
| Email.IsEmailIffRegex | webapp/app.py:13 | The first-`@`, last-dot test accepts exactly the strings the pattern accepts. The pattern reading is: some split into a local part, `@`, a domain, a dot, and two or more letters. |
| Email.EmailShape | webapp/app.py:13 | An accepted address has exactly one `@`, with something before it. Its last dot is followed only by letters, at least two of them, and it has at least six characters, as `a@b.cc` does. |
| Email.MatchesEmailRe | webapp/app.py:59 | `EMAIL_RE.match` succeeds exactly when the pattern accepts the whole string, or the string minus one final newline. |
| Email.MatchesEmailReTrimmed | webapp/app.py:59 | On a stripped string, `EMAIL_RE.match` succeeds exactly when the pattern accepts the whole string. The final-newline allowance never applies. |
| Email.EmailExamples | webapp/app.py:13 | `a@b.cc` is accepted. A one-letter top-level domain, an empty local part, an empty domain label and a second `@` are each refused. |
| Acquisition.FilterMp3 | 102303437.py:82 | `glob("*.mp3")` keeps each `.mp3` name as many times as the listing holds it, and nothing else. |
| Acquisition.LexLeTotal | 102303437.py:82 | Any two names are comparable in code-point order. |
| Acquisition.LexLeTransitive | 102303437.py:82 | Code-point order on names is transitive. |
| Acquisition.LexLeAntisymmetric | 102303437.py:82 | Two names ordered both ways are equal. |
| Acquisition.AdjacentIsSorted | 102303437.py:82 | A list ordered at every adjacent pair is ordered at every pair. |
| Acquisition.Sort | 102303437.py:82 | `sorted` returns an ordered permutation of its input. |
| Acquisition.KeptAreMp3 | 102303437.py:82-85 | Every name the sorted `.mp3` filter keeps ends in `.mp3`. |
| Acquisition.NoneKeptIff | 102303437.py:82-85 | The sorted filter is empty exactly when no name of the listing ends in `.mp3`. |
| Acquisition.CollectMp3s | webapp/mashup.py:38-41 | There is no result exactly when no name ends in `.mp3`. Otherwise the result is non-empty and sorted, and it holds each `.mp3` name of the listing with its multiplicity and nothing else. |
| Audio.Segment | 102303437.py:98-101 | A cut is a prefix of its source of length `min(len, cut_ms)`. A short source is kept whole and never padded. |
| Audio.FlattenLength | 102303437.py:109-111 | The merged length is the sum of the segment lengths. |
| Audio.FlattenOrder | 102303437.py:109-111 | Segment i sits in the merged audio right after segments 0 to i-1, unchanged. |
| Audio.Segments | webapp/mashup.py:51-54 | There is one segment per file, in file order, each the cut of that file's audio. |
| Audio.SegmentsLength | webapp/mashup.py:49-58 | The segments' total length is the sum of `min(len, cut_ms)` over the files. |
| Audio.CutAll | 102303437.py:95-104 | The loop succeeds exactly when every file decodes, and then yields the segments. Otherwise it reports the first file that does not decode. |
| Audio.Merge | webapp/mashup.py:56-58 | Starting from `segments[0]` on a non-empty list, the loop builds the concatenation of all segments. |
| Cli.ReadIgnoresPadding | 102303437.py:121-156 | Extra whitespace around every argument changes neither the reading nor the verdict of validation. |
| Cli.FirstFailure | 102303437.py:121-156 | When no check fails the reading has four arguments, the stripped singer is not blank, the count parses above 10 and the duration parses above 20. |
| Cli.Validate | 102303437.py:121-160 | An accepted command line gives a non-blank stripped singer, a count above 10 and a duration above 20. The output name has the sanitised shape and ends in `.mp3`. |
| Cli.ValidateFirstFailureWins | 102303437.py:121-156 | Check k of the order (count, singer, count positive, duration positive, count above 10, duration above 20) is reported exactly when it fails and every earlier check passes. |
| Cli.FirstFailureWins | 102303437.py:121-156 | The same precedence, stated for the checks before the job is built. |
| Precedence.FirstOfSixWins | 102303437.py:121-156 | For six distinct checks taken in order, check k is the one reported exactly when it fails and every earlier check passes. |
| Cli.ValidateAccepts | 102303437.py:121-160 | A command line is accepted exactly when there are four arguments, the singer is not blank, and the count and duration are integers above 10 and 20. The job carries the stripped singer, both numbers and the sanitised, suffixed output name. |
| Cli.ValidateRefusesTenVideos | 102303437.py:150-152 | A count of 10 is refused with the count-threshold error. |
| Cli.ValidateRefusesTwentySeconds | 102303437.py:154-156 | A duration of 20 seconds is refused with the duration-threshold error. |
| Cli.ValidateAcceptsElevenAndTwentyOne | 102303437.py:150-160 | A count of 11 and a duration of 21 are accepted, and the output name `result` becomes `result.mp3`. |
| Cli.DownloadedMp3s | 102303437.py:82-85 | The download tail fails with the "No MP3 files" error exactly when no name ends in `.mp3`. Otherwise it gives a non-empty sorted list of exactly the `.mp3` names. |
| Cli.CutAndMerge | 102303437.py:87-111 | Cut and merge succeeds exactly when the list is non-empty and every file decodes. The result is the in-order concatenation of the cuts and its length is the sum of the clipped lengths. An empty list gives "No audio segments", and a decode failure names the first file that failed. |
| Cli.Pipeline | 102303437.py:165-184 | Checks run in order: the FFmpeg probe, then the download, then the MP3 listing, then decoding. The first failing one decides the error: a raising download reports the singer, a listing without `.mp3` names reports the missing-MP3 error, and a decode failure names the first file that failed. The pipeline never refuses. A written file carries the output name and the concatenated cuts. The empty-list error is never reported. |
| Cli.Run | 102303437.py:119-184 | A command line is refused exactly when validation fails, and with that check. A written file carries the validated output name, and FFmpeg was found. Without FFmpeg a valid command line fails with the FFmpeg error. A valid command line ends as the pipeline for its job does: each failure and the written mashup are as in `Cli.Pipeline`. |
| Cli.ExitCode | 102303437.py:121-184 | The exit status is 0 exactly for a written mashup and 1 for every refusal and failure. |
| Cli.ErrorLine | 102303437.py:122-183 | Every refusal and every failure is reported on a line starting `Error: `. |
| WebApp.Field | webapp/app.py:48-51 | A form field reads as its stripped value, and a missing field reads as empty. |
| WebApp.ReadIgnoresPadding | webapp/app.py:48-66 | Extra whitespace around every form field changes neither the reading nor the verdict. |
| WebApp.FirstRejection | webapp/app.py:53-66 | When no check fails, the singer is not blank, the email matches, the count parses to 11..50 and the duration to 21..60. |
| WebApp.Validate | webapp/app.py:48-66 | An accepted form gives a non-blank stripped singer, a count from 11 to 50, a duration from 21 to 60 and a well-formed email. |
| WebApp.ValidateFirstFailureWins | webapp/app.py:53-66 | Check k of the order (singer, videos, duration, email, videos cap, duration cap) is reported exactly when it fails and every earlier check passes. |
| WebApp.FirstRejectionWins | webapp/app.py:53-66 | The same precedence, stated for the checks before the job is built. |
| WebApp.ValidateAccepts | webapp/app.py:53-66 | A form is accepted exactly when the singer is not blank, 11 <= count <= 50, 21 <= duration <= 60 and the email has the required shape. The job carries those values. |
| WebApp.AcceptedReading | webapp/app.py:53-66 | No check fails exactly when the singer is not blank, the email matches, the count is 11..50 and the duration is 21..60. |
| WebApp.EmailCheckIsShape | webapp/app.py:59 | On a stripped field, `EMAIL_RE.match` succeeds exactly when the address has the required shape. |
| WebApp.RejectedAtEmail | webapp/app.py:53-64 | A form that passes the first three checks but has a bad email is refused for its email, whatever its count and duration. |
| WebApp.EmailBeforeCap | webapp/app.py:59-64 | 100 videos with the email `bad` get the email error, not the cap error. |
| WebApp.Generate | webapp/app.py:53-71 | Status 400 exactly when `ok` is false, which is exactly when the form is refused. The refusal carries its `error` text. Acceptance gives status 200 with the "Job started" message and starts exactly the validated job. |
| Mashup.DefaultRollNoIsPlain | webapp/mashup.py:63 | The default roll number `102303437` has no whitespace and no forbidden character. |
| Mashup.MashupName | webapp/mashup.py:70 | The audio name ends in `.mp3`, so suffixing leaves it alone, and has no forbidden character when the roll number has none. |
| Mashup.ZipName | webapp/mashup.py:73 | The archive name ends in `.zip` and has no forbidden character when the roll number has none. |
| Mashup.MashupNameIsSanitized | webapp/mashup.py:70 | With a plain roll number the audio name already has the sanitised shape: `sanitize_filename` leaves it unchanged. |
| Mashup.CutAndMerge | webapp/mashup.py:43-58 | Cut and merge succeeds exactly when the list is non-empty and every file decodes, with the in-order concatenation of the cuts as the result. The `segments[0]` failure happens only for an empty list. When some file does not decode, the failure names the first such file. |
| Mashup.Prepare | webapp/mashup.py:63-71 | The job fails on a missing FFmpeg, then on a raising download, then on an empty MP3 list, then on a decode failure, and on nothing else. A decode failure names the first downloaded file that does not decode. Otherwise it yields the audio name and the merged cuts. It never reaches the empty-list failure. |
| Mashup.GenerateMashupZipAsWritten | webapp/mashup.py:73-75 | As written, every run fails. Exactly the runs that produce the audio fail at the archive step, on the missing `zipfile` name. |
| Mashup.GenerateMashupZip | webapp/mashup.py:63-77 | With the import in place, an archive is produced exactly when FFmpeg is found, the download works, some `.mp3` arrives and every file decodes. The archive is named `<roll>-mashup.zip` and holds the merged cuts under `<roll>-<singer>-mashup.mp3`. A decode failure names the first downloaded file that does not decode. Neither the empty-list failure nor the missing-name failure occurs. |

## Left out

- The search and download through yt-dlp, with its options, retries and
  file-name template, is the `fetch` parameter. It returns the names left in
  the scratch directory, or nothing when the download raised.
- FFmpeg detection (`shutil.which`) is a boolean in `Env`.
- The web FFmpeg error text is not modelled: the web job only logs the text.
- pydub decoding is the `decode` parameter. MP3 export, `mkdir` and the
  export error are not modelled; they are file-system effects.
- The import errors for a missing yt-dlp or pydub are not modelled; they are
  environment failures outside the logic.
- `tempfile.TemporaryDirectory` and its clean-up are not modelled.
- Writing the ZIP archive is not modelled: the artifact records only its
  name, its entry's name and the audio.
- webapp/mailer.py is not part of this model. Mail transport and reading the
  environment are outside the core.
- Flask routing, `render_template`, JSON serialisation, the background
  thread in `run_job` and its error log are not modelled.
- `print` output is not modelled. The CLI's exit status and error line are
  the functions `Cli.ExitCode` and `Cli.ErrorLine`.
- The progress lines, the usage text and the `KeyboardInterrupt` branch are
  not modelled.
- IntParse.ParseInt: does not accept non-ASCII decimal digits, which
  Python's `int` does. It also does not model the 4300-digit limit on
  conversion in recent Python versions.
- Cli.CutAndMerge: the duration is a natural number. pydub's slicing with a
  negative bound cannot arise, because validation keeps the duration above 20.
- Mashup.CutAndMerge: the duration is a natural number, for the same reason;
  the form caps it between 21 and 60.
- Acquisition.Sort: it orders plain names, not `PosixPath` objects. All files
  are in one directory, so the two orders agree.

## Findings

| source | as written | input that shows it | evidently intended | confidence | as-written member | corrected member |
|---|---|---|---|---|---|---|
| webapp/mashup.py:74 | `zipfile.ZipFile(...)` is called, but the module imports only `re` and `Path`, so the name `zipfile` is undefined there. | Any job where FFmpeg is found, at least one `.mp3` file is downloaded and every file decodes. The call raises `NameError`, `run_job` logs it, and no email is sent. | The module imports `zipfile` and returns the archive, as webapp/app.py's own `import zipfile` suggests. | high; not executed | Mashup.GenerateMashupZipAsWritten | Mashup.GenerateMashupZip |
