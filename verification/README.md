# Caption routines of subtools, in Dafny

This project models the caption-processing core of `subtools-v02.py`, a
command-line toolbox for subtitle files. Once the file, subprocess and
library I/O is removed, what remains are pure transformations of strings,
integer times and lists of records. Each is modelled as a Dafny function or
method with a contract, and the properties the code promises are proved
about the model.

The modules follow the toolbox's parts:

- `Results` (`results.dfy`): `Option` and `Result` for the exceptions the
  Python code raises, and `Collect`, which runs a loop of fallible steps
  that stops at the first failure.
- `Text` (`text.dfy`): the Python string built-ins the routines rely on:
  - `str.strip` with Python's whitespace set;
  - `split` on one character, and `"sep".join`;
  - `splitlines`, with the full line-break set and `\r\n` as one break;
  - `str.replace`, non-overlapping and left to right;
  - `int()` on decimal text;
  - the zero-padded format `f'{n:0w}'`.
- `TimeCode` (`timecode.dfy`): the two time conversions.
  - `to_srt_time`/`to_ass_time` turn a cuepoint's "seconds.fraction" into
    clock text.
  - `parse_time`/`format_time` turn SRT clock text into a millisecond count
    and back.
- `Overlap` (`overlap.dfy`): `fix_overlapping_subtitles`. It has a
  line-by-line parser state machine, grouping of entries by identical
  timing line in first-seen order, and the writer.
- `Dedupe` (`dedupe.dfy`): `merge_duplicate_subtitles01`. It collapses runs
  of consecutive cues whose stripped texts are equal.
- `Cuepoints` (`cuepoints.dfy`): the TTML converters `convert_to_srt` and
  `convert_to_ass` over a list of cuepoints, and `consolidate_lines`.
- `Sanitize` (`sanitize.dfy`):
  - `clean_ass_text`, the definition in effect at line 621;
  - the three content rewrites of `clean_srt_file`.

Times are integers. These errors are modelled as a `Failure` carrying what
went wrong:

- int() rejecting a time field of a cuepoint or a timing line;
- parse_time failing to unpack a timing line;
- a subtitle node without a child;
- a timing line before any index line in `fix_overlapping_subtitles`.

Other exceptions the code can raise are listed under "Left out". The
code's behaviour after an exception (partial output, a printed message) is
not modelled.

## Where the code departs from its evident intent

The model follows the code in each case:

- The comment at subtools-v02.py:622 says `clean_ass_text` removes
  override tags. One pass can leave one behind: removing an inner group
  can complete an outer one, so `{{\a}\b}` becomes `{\b}`
  (`Sanitize.StripOverridesTwice`).
- The docstring at subtools-v02.py:82 says `consolidate_lines` removes
  unnecessary line breaks and the `replace(" \n", "\n")` at line 91 drops
  the space before a kept break. A blank line before a speaker line still
  leaves one space there: "a\n\n(b)" becomes "a \n(b)", and a second pass
  gives "a\n(b)". So the routine is not idempotent
  (`Cuepoints.ConsolidateNotIdempotent`, `Cuepoints.ConsolidateTwiceExample`).
- The comment at subtools-v02.py:529 says other encodings are tried when
  UTF-8 fails. The fallback branches only `pass`, so the output file is
  written empty (`Overlap.FixOverlaps`, `NotUtf8`).
- The docstrings at subtools-v02.py:60 and :71 read the input as
  "seconds.milliseconds". The fraction digits are read as a count, so
  "12.5" denotes 5 ms, not half a second. `to_ass_time` prints that count
  with a minimum width of 2 into a field ASS reads as hundredths, so "12.5"
  becomes "0:00:12.05" and "12.500" becomes "0:00:12.500"
  (`TimeCode.ToAssTimeExample`).
- The comment at subtools-v02.py:570 says the merged entries are sorted by
  timing. The sort key is the index, which already ascends, so the entries
  stay in order of first appearance (`Overlap.MergeEntries`). Grouping
  (line 551) compares the raw timing line as a string, not the times it
  denotes.

## Model

| member | source | states |
|---|---|---|
| Text.Strip | subtools-v02.py:83 | The result has no leading or trailing Python whitespace, and is the input with only whitespace removed from its two ends. |
| Text.StripIdempotent | subtools-v02.py:601 | Stripping a stripped text changes nothing. |
| Text.FormatIntRoundTrip | subtools-v02.py:68 | int() reads a zero-padded integer back as that integer, for every width and sign. |
| Text.ParseIntDigits | subtools-v02.py:62 | int() on a string of ASCII digits is its decimal value. |
| Text.JoinSplit | subtools-v02.py:578 | Joining the pieces of a split with the separator rebuilds the text. |
| Text.SplitJoin | subtools-v02.py:578 | Splitting a join of separator-free pieces gives the pieces back. |
| Text.SplitLinesTwo | subtools-v02.py:83 | splitlines on two break-free lines joined by a line feed gives exactly those two lines. |
| Text.ReplaceAbsent | subtools-v02.py:91 | replace leaves a text without the pattern unchanged. |
| TimeCode.SecondsToClock | subtools-v02.py:59-68 | Fails exactly when int() rejects the whole-seconds field, or a present fraction field. Otherwise hours*3600+minutes*60+seconds equals the whole seconds, minutes and seconds are below 60, and the fraction is the fraction field's integer value (0 when absent). |
| TimeCode.ToSrtTimeMeaning | subtools-v02.py:59-68 | The SRT time to_srt_time writes is read back by parse_time as the whole seconds in milliseconds plus the fraction field counted as milliseconds. |
| TimeCode.SecondsToClockOf | subtools-v02.py:61-67 | For digit fields w and f, "w.f" gives the clock of w seconds with fraction f. |
| TimeCode.ToSrtTimeExample | subtools-v02.py:59-68 | "12.5" becomes "00:00:12,005": 12 seconds and 5 ms, which parse_time reads back as 12005. |
| TimeCode.ToAssTimeExample | subtools-v02.py:70-79 | "12.5" becomes "0:00:12.05", which reads back as the clock 0:00:12 with fraction 5. |
| TimeCode.SrtClockLayout | subtools-v02.py:68 | For hours below 100 and minutes, seconds and milliseconds in range, SRT clock text is 12 characters: ':' at 2 and 5, ',' at 8, and digit fields of widths 2, 2, 2 and 3 holding hours, minutes, seconds and milliseconds. |
| TimeCode.AssClockLayout | subtools-v02.py:79 | For hours below 10, minutes and seconds below 60 and a fraction below 100, ASS clock text is 10 characters: ':' at 1 and 4, '.' at 7, and digit fields of widths 1, 2, 2 and 2 holding the four values. |
| TimeCode.ReadAssClockText | subtools-v02.py:79 | ASS clock text splits at ':' and '.' back into the clock it was written from, for every sign and range of the fields. |
| TimeCode.ToAssTimeReadBack | subtools-v02.py:70-79 | to_ass_time succeeds exactly when the seconds conversion does. Its text then reads back as the clock: whole seconds split into hours, minutes below 60 and seconds below 60. |
| TimeCode.ParseTimeOfText | subtools-v02.py:346-350 | On "a:b:d,e" with separator-free fields, parse_time succeeds exactly when int() accepts all four fields. The result is then their millisecond sum, with no range check on minutes or seconds. |
| TimeCode.ParseTimeRejects | subtools-v02.py:348-349 | parse_time fails on text without exactly two ':', and on text whose part after the second ':' does not hold exactly one ','. |
| TimeCode.MillisToClock | subtools-v02.py:352-358 | format_time's fields: minutes and seconds below 60, milliseconds below 1000, and together they denote the input count. |
| TimeCode.FormatTimeRoundTrip | subtools-v02.py:346-359 | parse_time(format_time(t)) == t for every t >= 0. |
| TimeCode.ParseSrtClockText | subtools-v02.py:346-350 | parse_time reads any clock laid out as h:mm:ss,mmm back as the clock's millisecond value. |
| Overlap.ParseSkipsStray | subtools-v02.py:514-522 | When no timed entry is open, inserting a non-blank line that is neither an index nor a timing line changes nothing but the skipped list: parsing succeeds or fails as before, with the same entries, and the stripped line joins the skipped lines at its position. |
| Overlap.FeedText | subtools-v02.py:514-518 | Text lines after the timing line are appended in order to the open entry. |
| Overlap.ParseEntriesOk | subtools-v02.py:488-526 | Every parsed entry has a stripped timing line containing " --> ". Its text lines are non-empty, stripped and never all-digit. |
| Overlap.ParseFailsIff | subtools-v02.py:509 | Parsing fails (the TypeError of `'timing' in None`) exactly when an arrow line comes before every index line. |
| Overlap.FeedOpenSucceeds | subtools-v02.py:497-522 | Once an entry has been opened, parsing cannot fail. |
| Overlap.ParseAtIndexLine | subtools-v02.py:488-526 | Parsing splits at an index line: the entries and skipped lines of a + b are those of a followed by those of b. |
| Overlap.GroupByTiming | subtools-v02.py:550-554 | One group per distinct timing line. Each group's members are exactly the entries with that timing, in order. Groups come in order of first appearance. |
| Overlap.MergeEntries | subtools-v02.py:556-571 | Output indices are 1..N and timing lines are pairwise distinct. The timing lines are exactly the input's. Each cue's text is the in-order concatenation of the texts of all entries with its timing, and cues are in order of first appearance. |
| Overlap.GroupByTimingText | subtools-v02.py:550-554 | Grouping by timing line loses and invents no text line: the groups' text lines are a rearrangement of the entries'. |
| Overlap.MergeKeepsText | subtools-v02.py:559-561 | Merging keeps every text line: same multiset and same count. |
| Overlap.GroupDistinct | subtools-v02.py:550-568 | Entries with pairwise distinct timings each form a group of their own, in order. |
| Overlap.MergeIdempotent | subtools-v02.py:550-571 | Merging the merged cues again gives the same cues. |
| Overlap.RenderParseRoundTrip | subtools-v02.py:574-578 | The written file, split into lines, parses back to exactly the written cues, with nothing skipped. |
| Overlap.FixOverlapsIdempotent | subtools-v02.py:467-580 | Running the fixer on its own output reproduces that output. |
| Dedupe.ExtendRun | subtools-v02.py:603-606 | The inner loop stops at the first cue whose text differs, and the run's end is the end of its last cue. |
| Dedupe.MergeDuplicates | subtools-v02.py:597-609 | The loop computes the collapse. The output is no longer than the input, indices are 1..n, texts are stripped, and adjacent texts differ. |
| Dedupe.CollapseCue | subtools-v02.py:597-609 | The k-th output cue covers a maximal run of input cues with equal stripped text. It is numbered k+1, starts at the run's first start, ends at its last end, and carries the stripped text. |
| Dedupe.NotAdjacentKept | subtools-v02.py:597-609 | Three cues whose stripped texts are t, u, t with u different from t stay three cues, for any input numbering and surrounding whitespace. They are numbered 1 to 3, keep their own times, and carry the stripped texts. |
| Dedupe.RepeatThenNew | subtools-v02.py:597-609 | A repeat followed by a new text gives two cues: the first spans both repeats. |
| Dedupe.CollapseIdempotent | subtools-v02.py:597-609 | Collapsing the output again changes nothing. |
| Cuepoints.ConsolidateOneLine | subtools-v02.py:81-91 | A text without line breaks consolidates to its stripped self. |
| Cuepoints.ConsolidateSpeaker | subtools-v02.py:81-91 | A stripped line followed by a speaker line "(Name)..." keeps the line break between them. |
| Cuepoints.ConsolidateNoSpeaker | subtools-v02.py:81-91 | A text none of whose lines is a speaker line consolidates to its stripped lines joined with single spaces, with no line break left. |
| Cuepoints.ConsolidateBlankBeforeSpeaker | subtools-v02.py:81-91 | A line, a blank line and a speaker line consolidate to the line, " \n" and the speaker line: one joining space stays before the break. |
| Cuepoints.ConsolidateSpaceBreak | subtools-v02.py:81-91 | A line, " \n" and a speaker line consolidate to the line, "\n" and the speaker line. |
| Cuepoints.ConsolidateNotIdempotent | subtools-v02.py:81-91 | For a line, a blank line and a speaker line, a second consolidation changes the first one's result. |
| Cuepoints.ConsolidateTwiceExample | subtools-v02.py:81-91 | "a\n\n(b)" consolidates to "a \n(b)", and that to "a\n(b)". |
| Cuepoints.Texts | subtools-v02.py:176-180 | Reading the texts succeeds exactly when every subtitle node has a child, and gives one text per subtitle. |
| Cuepoints.TextsAt | subtools-v02.py:178-179 | Each text is decided by its own node: the substitution_string when present, else the stripped content. |
| Cuepoints.SpokenComplete | subtools-v02.py:163-167 | Every cuepoint that has subtitles and a successor yields a caption. |
| Cuepoints.SpokenHasSubtitles | subtools-v02.py:165-167 | Cuepoints without subtitles yield none. |
| Cuepoints.SpokenSorted | subtools-v02.py:163 | Captions come in document order. |
| Cuepoints.EachCaption | subtools-v02.py:162-170 | The loop's result is the reference fold: the steps of the captioned cuepoints, numbered from 1, collected up to the first failure. |
| Cuepoints.SrtCueOf | subtools-v02.py:169-183 | A cuepoint's caption fails exactly when int() rejects its time or the next cuepoint's time, or a subtitle node has no child. Otherwise it carries the given id. |
| Cuepoints.ConvertToSrt | subtools-v02.py:154-185 | The method computes the reference fold with SRT captions as the step. |
| Cuepoints.SrtCaption | subtools-v02.py:163-185 | The k-th caption is numbered k+1 and comes from the k-th cuepoint that has subtitles and a successor. It runs from that cuepoint's time to the next cuepoint's time, and its text is the consolidated line-feed join of its subtitle texts. |
| Cuepoints.SrtFailure | subtools-v02.py:163-185 | Conversion fails exactly when some captioned cuepoint has a bad time, a successor with a bad time, or a childless subtitle node. |
| Cuepoints.DialogueLinesAt | subtools-v02.py:146-150 | The j-th event line of a cuepoint carries the j-th subtitle's position and the same text the SRT path takes for it. |
| Cuepoints.ConvertToAss | subtools-v02.py:137-151 | The events are the captioned cuepoints' blocks, one after another, and the conversion fails exactly when a block fails. On success there is one line per subtitle of every captioned cuepoint. |
| Cuepoints.AssBlockLine | subtools-v02.py:143-150 | Line j of a cuepoint's block is the dialogue for subtitle j, from the cuepoint's ASS time to the next cuepoint's ASS time. |
| Cuepoints.AssTimeNoComma | subtools-v02.py:70-79 | ASS time text has no comma. |
| Cuepoints.DialogueFields | subtools-v02.py:150 | Split at commas, a dialogue line's first fields are "Dialogue: 0", the start, the end and "Default", whatever its text holds. |
| Cuepoints.AssBlockTimes | subtools-v02.py:143-150 | Fields 1 and 2 of every line of a block are the cuepoint's and the next cuepoint's ASS times. |
| Sanitize.GroupClose | subtools-v02.py:623 | The lazy `.*?\}` ends at the first '}', with no '}' or line feed before it. |
| Sanitize.GroupCloseMissing | subtools-v02.py:623 | When no group closes, every '}' comes after a line feed. |
| Sanitize.StripOverridesKeepsLines | subtools-v02.py:623 | Removal only deletes characters and never a line feed. |
| Sanitize.PlainPrefix | subtools-v02.py:623 | Text without '{' passes through unchanged. |
| Sanitize.GroupDeleted | subtools-v02.py:623 | A group "{\" + m + "}" is deleted whole when m has no '}' and no line feed. |
| Sanitize.StripOverridesShrinks | subtools-v02.py:623 | Removal only takes characters away: the result's characters are a sub-multiset of the input's. |
| Sanitize.GroupBetween | subtools-v02.py:623 | A group between two runs of text without '{' is removed and the runs are joined. |
| Sanitize.BraceBeforeGroup | subtools-v02.py:623 | A '{' with no backslash after it is kept, and the group right after it is still removed. |
| Sanitize.GroupAlone | subtools-v02.py:623 | A line holding only one override group cleans to nothing. |
| Sanitize.DropTimestampMaps | subtools-v02.py:216 | Deleting the timestamp-map lines only takes characters away. |
| Sanitize.CleanAssText | subtools-v02.py:621-624 | The result is stripped and no longer than the input. |
| Sanitize.CleanAssTextExample | subtools-v02.py:621-624 | "Hello {\pos(100,200)}World" cleans to "Hello World". |
| Sanitize.StripOverridesTwice | subtools-v02.py:623 | "{{\a}\b}"-shaped text becomes "{\b}" after one removal and "" after a second: removal is not idempotent. |
| Sanitize.DropUnwanted | subtools-v02.py:214 | No backslash, 'h', 📱, 🔊 or 📺 remains. |
| Sanitize.DropUnwantedKeeps | subtools-v02.py:214 | A character survives exactly when it occurs in the input and is not one of the five. |
| Sanitize.DropUnwantedConcat | subtools-v02.py:214 | The filter works character by character: it distributes over concatenation. |
| Sanitize.DropUnwantedIdempotent | subtools-v02.py:214 | A second filter pass changes nothing. |
| Sanitize.LineLength | subtools-v02.py:216 | The greedy `.+` stops before the first line feed, which must exist. |
| Sanitize.MapLineDeleted | subtools-v02.py:216 | "X-TIMESTAMP-MAP=" + a non-empty line + line feed is removed whole. |
| Sanitize.NoMapUnchanged | subtools-v02.py:216 | Text without an 'X' is left unchanged. |
| Sanitize.CleanSrtContent | subtools-v02.py:214-216 | After the three rewrites, no unwanted character remains and nothing has been added. |

## Left out

- Stream listing and extraction through ffmpeg, downloads through yt_dlp,
  curl and webvtt, and the interactive menu: these are external processes,
  network access and prompts. The menu's call of the undefined
  `merge_duplicate_subtitles` is not modelled either.
- Path normalisation and output file naming: environment-dependent glue.
- BeautifulSoup XML parsing and pysrt/pysubs2 loading and saving. Their
  results are the input datatypes:
  - a cuepoint list;
  - a list of lines;
  - a list of cues with integer times.
- File writes: the models return the text or records that would be
  written. Partial output written before an exception is not modelled. For
  example, convert_to_srt prints a caption's number before its times are
  converted.
- The ASS header (Script Info, Styles, Events) is constant text and only
  the event lines are modelled.
- `Scaling`: float arithmetic. Subtitle positions are integers taken as
  already scaled.
- `preprocess_vtt`: its regular expressions rely on lookahead and
  multi-line anchors.
- The older `clean_ass_text` at line 419: it is shadowed by the definition
  at line 621.
- The encoding fallbacks of `fix_overlapping_subtitles`: decoding is I/O.
  Their effect, an empty output for non-UTF-8 input, is modelled.
- Overlap.Parse does not keep the entry index: the code stores
  `int(line)` but never reads it again.
- Text.ParseInt does not accept the underscores and non-ASCII digits that
  Python's int() also accepts: caption times and counters use ASCII
  digits.
- Text.SplitLines covers splitlines on strings only; universal-newline
  translation by `open()` is left out.
- Overlap.IsIndexLine: ASCII digits only. Python's isdigit() also accepts
  other Unicode digits. Full-width "１２" would open an entry (int() gives
  12), and "²" or "①" pass isdigit() but make int() raise ValueError.
  Neither case is modelled.
- Overlap.FixOverlaps: splits the decoded text at '\n' only. readlines()
  with universal newlines also ends a line at a lone '\r'. The model keeps
  such a '\r' inside its line, so a file with only '\r' line ends is read
  differently.
- Cuepoints.Subtitle: a node's first child is text or missing. A first
  child that is itself an element makes `.strip` resolve through
  BeautifulSoup's `Tag.__getattr__` to `find('strip')`. That returns None,
  and calling it raises TypeError. This failure is not modelled.
- TimeCode.ParseTime does not model timedelta's range limit: counts are
  unbounded integers.
- TimeCode.FormatTime is modelled for non-negative counts only.
- TimeCode.FormatTime (and TimeCode.MillisToClock) computes whole seconds
  exactly. The code takes `int(td.total_seconds())` of a float, which can
  round across a whole second beyond about 9·10^12 seconds.
- Dedupe.MergeDuplicates strips every text before the loop, where the code
  strips inside it. The result is the same, since each text is stripped
  before any comparison.
- Cuepoints.Consolidate: no closed form for captions that mix speaker lines
  with other lines in general. The lemmas cover one line, captions without
  speaker lines, and a line before a speaker line with nothing, a blank
  line or a trailing space between.
- Cuepoints.ConvertToSrt reads `captions[i + 1]['time']` without a
  KeyError case: every cuepoint has a time.
- Cuepoints.ConvertToAss: its events carry no number, so the caption
  number its step receives is unused.
- Sanitize.CleanSrtContent: no lemma about the "WEBVTT" header removal
  beyond what the text library proves of `str.replace`. A removal can join
  text into a new occurrence, so the result is not proved header-free.
