# video-summary: a Dafny model of the summarisation core

`video-summary` turns a video into a short text summary. It extracts the audio
with ffmpeg, transcribes it with Whisper, and asks an OpenAI chat model to
summarise the transcript. This project models the decisions the program makes
between the transcript and the written summary, all of them in
`src/video_summary/cli.py`:

- **`parse_limit`** (module `Limit`) reads the `--limit` value. `<N>` is a
  character limit and `<N>p` is a paragraph count. The value is stripped of
  Python whitespace and lower-cased first, and every failure path of the
  source is a distinct error.
- **Chunking** (module `Chunking`) splits the transcript into 8000-character
  slices. A transcript that fits in one chunk is kept whole.
- **`_trim_to_char_limit`** (module `Trimming`) cuts a summary that is over
  the character limit. It prefers a word boundary past 60% of the limit,
  drops trailing dots and spaces, and appends `"..."`.
- **`summarize_text`** (module `Summarize`) builds the chat requests: one per
  chunk, plus a refine request when there are several chunks. It states
  which system and user messages each request carries and how the final
  reply is post-processed. The completion service is a function parameter
  (`Request -> Completion`) that the model does not interpret.
- **`main`** (module `Cli`) decides which limit is in force. A truthy
  `--limit` wins, then the positional paragraph count, then the default of 3.
  It also chooses the output path (`--out`, or `<dir>/<stem>.summary.txt`)
  and composes these with `summarize_text`.

Supporting modules:

- `Wrappers` holds `Option` and `Result`, which stand in for Python's `None`
  and for `fail(...)`, the program's exit with an error message.
- `PyStr` models the Python string operations the code relies on:
  - `strip` and `rstrip`, using the full `str.isspace` set;
  - `rstrip(chars)`;
  - ASCII `lower`;
  - `isdigit` on ASCII digits;
  - `int` on a digit string, and `str` of a natural number;
  - `rfind`;
  - `sep.join`, and `"".join` as concatenation;
  - `endswith`, which `parse_limit` uses to spot the `p` suffix.

  Its `EndsWith` and `Contains` predicates also serve as the vocabulary of the
  prompt contracts in `Summarize`: a message contains the count it asks for
  and ends with the text it carries.

All modules are pure functions and lemmas, in the same form as the source:
every function of the core computes a value and updates no object.

Where the program's own wording and its code disagree, the model follows the
code. The system instruction for a character limit (`cli.py:100-104`) asks for
a summary no longer than the limit and for staying under it, and the `--limit`
help (`cli.py:193`) calls `<N>` a number of characters. The code instead cuts
an over-long reply to the limit and then appends a three-character ellipsis
(`cli.py:73`), so a trimmed summary can be up to `limit + 3` characters long.
`Trimming.TrimToCharLimit` states this bound, and `Trimming.TrimOverrunIsTight`
shows that it is reached.

## Model

| member | source | states |
|---|---|---|
| Limit.ParseLimit | src/video_summary/cli.py:153-179 | an accepted `--limit` sets exactly one of paragraphs / characters, to a positive value |
| Limit.ParseNormalized | src/video_summary/cli.py:163-179 | after normalisation: empty, `p`-suffix, digits-only, `int()` digit cap and positivity checks in the source's order; an accepted value is valid |
| Limit.NormalizeShape | src/video_summary/cli.py:162 | `strip().lower()` is no longer than the input, has no surrounding whitespace and no upper-case letter, and is empty exactly when the input is all whitespace |
| Limit.NormalizeIdentity | src/video_summary/cli.py:162 | a non-empty value with no surrounding whitespace and no upper-case letter is left as it is |
| Limit.ParseNormalizedDigits | src/video_summary/cli.py:165-179 | for a digit string d, both `d` and `dp`: more than 4300 digits is the `int()` error, value 0 is the matching non-positive error, otherwise the value on the matching side |
| Limit.ParseParagraphsForm | src/video_summary/cli.py:162-172 | whitespace + k leading zeros + the decimal of n > 0 + `p` or `P` + whitespace parses to n paragraphs, when the digits stay within `int()`'s 4300-digit cap |
| Limit.ParseCharsForm | src/video_summary/cli.py:162-179 | whitespace + k leading zeros + the decimal of n > 0 + whitespace parses to a limit of n characters, when the digits stay within the 4300-digit cap |
| Limit.ParseTooManyDigits | src/video_summary/cli.py:169-176 | a padded digit string of more than 4300 digits, with or without `p`, fails with the `int()` digit-limit error |
| Limit.ParseLimitSound | src/video_summary/cli.py:162-179 | conversely, an accepted value normalises to leading zeros + the decimal of the parsed number (+ `p` for paragraphs), within the digit cap: nothing else is accepted |
| Limit.ParseNormalizedSound | src/video_summary/cli.py:163-179 | the same converse for the normalised value |
| Limit.ParseBlank | src/video_summary/cli.py:162-164 | empty or whitespace-only input fails as empty |
| Limit.ParseZero | src/video_summary/cli.py:169-178 | an all-zero count of 1 to 4300 digits (within `int()`'s digit cap) fails as non-positive, for both the paragraph and the character form; past the cap `Limit.ParseTooManyDigits` applies |
| Limit.ParseLimitCharExample | src/video_summary/cli.py:158 | `1000` is a 1000-character limit |
| Limit.ParseLimitParagraphExamples | src/video_summary/cli.py:159-160 | `2p` and `002p` are both two paragraphs |
| Limit.ParseLimitPaddedExample | src/video_summary/cli.py:162 | ` 3P ` is three paragraphs (strip, then lower) |
| Limit.ParseLimitParagraphRefusals | src/video_summary/cli.py:165-168 | `p`, `-5p` and `3xp` fail the paragraph format |
| Limit.ParseLimitCharRefusal | src/video_summary/cli.py:174-175 | `3x` fails the character format |
| Limit.ParseLimitSignedRefusal | src/video_summary/cli.py:174-175 | `-5` fails the character format rather than the positivity check |
| Limit.ConstraintRoundTrip | src/video_summary/cli.py:172-179 | the `(paragraphs, chars)` pair with exactly one positive side and the one-of constraint convert into each other without loss |
| PyStr.RStrip | src/video_summary/cli.py:69 | `rstrip()` keeps a prefix, removes only whitespace, and leaves no trailing whitespace |
| PyStr.LStrip | src/video_summary/cli.py:162 | the leading half of `strip()`: keeps a suffix, removes only whitespace, leaves no leading whitespace |
| PyStr.StripTrims | src/video_summary/cli.py:162 | `strip()` is the input with whitespace-only text cut from both ends, and has no whitespace at either end |
| PyStr.StripBlank | src/video_summary/cli.py:162-164 | `strip()` is no longer than its input, has no whitespace at either end, and is empty exactly when the input is all whitespace |
| PyStr.StripPadded | src/video_summary/cli.py:162 | a non-empty text with no whitespace at its ends, padded with whitespace, strips back to itself |
| PyStr.AllSpaceStripsToEmpty | src/video_summary/cli.py:162-164 | a whitespace-only value strips to the empty string |
| PyStr.RStripChars | src/video_summary/cli.py:73 | `rstrip(". ")` keeps a prefix, removes only the given characters, and leaves none of them at the end |
| PyStr.LowerAscii | src/video_summary/cli.py:162 | `lower()` keeps the length, maps each upper-case letter to its lower-case one, leaves every other character alone, and leaves no upper-case letter |
| PyStr.DigitsValue | src/video_summary/cli.py:169 | `int()` of a digit string is 0 exactly when every digit is `0` |
| PyStr.LeadingZeros | src/video_summary/cli.py:160 | leading zeros do not change the value `int()` reads |
| PyStr.Decimal | src/video_summary/cli.py:169 | the canonical decimal numeral of n: all digits, `int()` of it is n, no leading zero |
| PyStr.DigitsCanonical | src/video_summary/cli.py:169 | every digit string with a positive value is leading zeros followed by the canonical numeral of its `int()` value |
| PyStr.RFind | src/video_summary/cli.py:70 | `rfind` returns -1 or an index holding the character, with no occurrence after it |
| PyStr.Join | src/video_summary/cli.py:134 | `sep.join` of no parts is empty; otherwise it starts with the first part and is as long as the parts plus one separator between each pair |
| PyStr.JoinAppend | src/video_summary/cli.py:134 | a part joined on at the end comes after exactly one separator, behind the join of the parts before it, so the parts appear in order |
| PyStr.JoinEmptySeparator | src/video_summary/cli.py:134 | joining with the empty separator is plain concatenation, the independent `Concat` |
| Chunking.Chunks | src/video_summary/cli.py:107-108 | the chunks concatenate back to the transcript; there is one chunk when it fits in 8000 characters, otherwise ceil(len/8000); every chunk but the last is exactly 8000 long, and the last is non-empty whenever the transcript is |
| Chunking.SlicesFrom | src/video_summary/cli.py:108 | every slice has 1 to 8000 characters, and there are none exactly when the start is at or past the end |
| Chunking.SlicesConcat | src/video_summary/cli.py:108 | the 8000-character slices from `range(0, len, 8000)` concatenate to the text |
| Chunking.SlicesCount | src/video_summary/cli.py:108 | the number of slices is the ceiling of the remaining length over the step |
| Chunking.SliceAt | src/video_summary/cli.py:108 | slice i is `text[i*m : min(i*m+m, len)]` |
| Chunking.SliceSizes | src/video_summary/cli.py:108 | all slices but the last have the full step length; the last has 1..step characters |
| Chunking.ShortCutOnlyForEmpty | src/video_summary/cli.py:108 | the `[text]` short cut agrees with slicing for every non-empty text that fits, and differs only for the empty transcript (one empty chunk instead of none) |
| Trimming.TrimToCharLimit | src/video_summary/cli.py:65-73 | a text within the limit is unchanged; otherwise the result is `Cut`'s kept text followed by `...`: a prefix of the first `limit` characters, not ending in `.` or space; always at most `limit + 3` long |
| Trimming.Window | src/video_summary/cli.py:69 | the window is a prefix of `s[:limit]` with no trailing whitespace |
| Trimming.PastSixtyPercent | src/video_summary/cli.py:71 | the test holds exactly when the index is past 60% of the limit, computed over the reals |
| Trimming.Cut | src/video_summary/cli.py:69-73 | the kept text is a prefix of `s[:limit]`; it backs up to the last space only when that space lies past 60% of the limit, and only dots and spaces are dropped after the cut |
| Trimming.CutAtWordBoundary | src/video_summary/cli.py:70-72 | if the window has a space past 60%, the cut is at or before the last such space, and the result is at most that index + 3 long |
| Trimming.CutKeepsWindow | src/video_summary/cli.py:71-73 | with no space past 60%, the whole window is kept except for trailing dots and spaces |
| Trimming.TrimOverrunIsTight | src/video_summary/cli.py:69-73 | with no whitespace and no dot in the first `limit` characters, the result is `s[:limit] + "..."`, exactly `limit + 3` long |
| Summarize.Message.Text | src/video_summary/cli.py:94-138 | every system and user message contains the requested count and unit (paragraphs whenever a paragraph count is set), and a user message ends with a blank line and the chunk or combined text it carries |
| Summarize.Message.Heading | src/video_summary/cli.py:111-138 | the line in front of the carried text names the requested count and unit |
| Summarize.InstructionText | src/video_summary/cli.py:94-104 | the system instruction names the requested count and unit |
| Summarize.Reply | src/video_summary/cli.py:123 | the reply used is the completion's content with whitespace-only text cut from both ends, and no whitespace left at either end |
| Summarize.Finish | src/video_summary/cli.py:127-128 | without a character limit the reply is kept; under a limit c it is kept if it fits, otherwise cut to at most c + 3 characters ending in `...` |
| Summarize.SummarizeText | src/video_summary/cli.py:91-150 | among the modelled causes, fails iff neither limit is set; every request uses the same model and system instruction; one chunk gives exactly one request; k > 1 chunks give k chunk requests in order plus a refine request over the replies joined by blank lines; the result is the last reply, finished under the character limit |
| Summarize.SummarizeSingle | src/video_summary/cli.py:125-129 | a single chunk is one request, and its stripped reply is finished under the character limit |
| Summarize.ChunkRequests | src/video_summary/cli.py:132 | one request per chunk, in chunk order, all to the same model with the same instruction |
| Summarize.SummarizeAndRefine | src/video_summary/cli.py:131-150 | one request per chunk in order, then one refine request carrying the joined partial replies, whose finished reply is the result |
| Summarize.RequestCount | src/video_summary/cli.py:107-150 | the number of completion calls is 1 for a transcript of at most 8000 characters, otherwise ceil(len/8000) + 1 |
| Summarize.TranscriptSentOnce | src/video_summary/cli.py:108-132 | the chunk texts sent, in request order, concatenate to exactly the transcript |
| Summarize.SingleSendsChunk | src/video_summary/cli.py:125-126 | the single request sends exactly its chunk |
| Summarize.RefineSendsChunks | src/video_summary/cli.py:131-136 | the chunk requests send exactly the chunks, in order, and the refine request sends none |
| Summarize.SummaryLength | src/video_summary/cli.py:148-150 | under a character limit c the summary is at most c + 3 characters |
| Cli.EffectiveLimits | src/video_summary/cli.py:203-221 | a truthy `--limit` alone decides (a parse failure is a usage error); otherwise a positional count must be positive and is used; otherwise 3 paragraphs; any accepted result sets exactly one positive limit |
| Cli.PositionalIgnoredUnderLimit | src/video_summary/cli.py:205-213 | with a non-empty `--limit`, the positional paragraph count makes no difference |
| Cli.LimitWinsOverPositional | src/video_summary/cli.py:205-209 | `--limit 3p` with positional 5 summarises to 3 paragraphs |
| Cli.EmptyVersusBlankLimit | src/video_summary/cli.py:205-206 | `--limit ""` counts as absent, but a whitespace-only `--limit` is parsed and refused as empty |
| Cli.Stem | src/video_summary/cli.py:249 | `Path.stem` is a prefix of the name; when it is shorter, the name has a dot right after it and none later, and the name is kept whole only when it has no dot past its first character or ends in a dot |
| Cli.StemDropsLastSuffix | src/video_summary/cli.py:249 | the stem of `base.ext` is `base`: only the last suffix is dropped |
| Cli.DefaultOutPath | src/video_summary/cli.py:248-249 | the default output path keeps the video's directory, adds no further directory, and ends in `.summary.txt` |
| Cli.DefaultOutPathBesideVideo | src/video_summary/cli.py:249 | the summary of `dir/name` goes to `dir/<stem>.summary.txt` |
| Cli.DefaultOutPathBareName | src/video_summary/cli.py:249 | the summary of a bare file name goes to `<stem>.summary.txt` in the current directory |
| Cli.OutPath | src/video_summary/cli.py:245-249 | a truthy `--out` is used as given; otherwise the default path beside the video |
| Cli.Run | src/video_summary/cli.py:203-249 | among the modelled causes, a run fails exactly when the limits are refused, as a usage error, so the "Internal error" of line 92 is unreachable; a successful run writes to `OutPath`, makes at least one request, and its summary is the last stripped reply, trimmed to at most c + 3 characters exactly when a character limit c is in force |

## Left out

- Audio extraction (ffmpeg), transcription (Whisper) and the check that the
  video file exists are I/O. The transcript is an input of `Cli.Run`.
- The OpenAI client is a foreign call: the `OPENAI_API_KEY` check, the import
  of `openai`, and the temperature 0.3 of each request. The completion
  service is an uninterpreted function parameter, and a reply whose content
  is `None` is not modelled.
- The `argparse` front end is not modelled. So are the Whisper model and
  language options, the default OpenAI model name, `rich` console output,
  writing the file, showing summaries of at most 1000 characters in the
  terminal, and removing the temporary WAV file. `fail` becomes an `Err`
  value instead of a process exit.
- Limit.ParseLimit: Python's `isdigit`, `int` and `lower` accept non-ASCII
  digits and letters (for example Arabic-Indic digits). The model accepts
  ASCII digits only and lower-cases ASCII only.
- Limit.ParseLimit: characters that `isdigit` accepts but `int()` refuses,
  such as the superscript `²`, make the program stop with an uncaught
  `ValueError`. The model refuses them earlier, as `BadParagraphFormat` or
  `BadCharFormat`.
- Limit.ParseLimit: a digit string longer than 4300 digits also makes `int()`
  raise an uncaught `ValueError`. The model returns `DigitLimitExceeded` for
  it. The 4300 is CPython's default; changing it through
  `PYTHONINTMAXSTRDIGITS` or `sys.set_int_max_str_digits` is not modelled.
- Trimming.PastSixtyPercent: the float test `last_space > limit * 0.6` is
  modelled over the reals, where it is exactly `5 * k > 3 * limit`. The
  float product is not always exact (`0.6` itself is rounded), so the two
  can differ when `k` lies right at 60% of a limit beyond about 2^50.
- Summarize.SummarizeText: a completion request that raises (a lost
  connection, failed authentication, a rate limit, an unknown model) or whose
  response has no choices is not modelled, because `complete` is a total
  function. In the program such a request stops `summarize_text` with an
  uncaught exception (lines 115-123 and 139-147).
- Cli.Run: for the same reason, a run that stops because a completion request
  raised is not modelled. The claim that a run fails exactly when the limits
  are refused covers only the failure causes the model has.
- Summarize.SummarizeText: a direct call with a negative `char_limit` or
  `paragraphs` cannot be expressed, since both are `nat`. `main` only ever
  passes positive values.
- Cli.DefaultOutPath: paths are POSIX strings that are already normalised.
  `pathlib`'s collapsing of `./`, repeated or trailing slashes, and Windows
  separators is not modelled. The stem rule is Python 3.12's.
