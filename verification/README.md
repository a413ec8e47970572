# Caption and segmentation core of a channel-clipping downloader

This project is a Dafny model of the pure logic of a Go tool that downloads
the latest videos of configured YouTube channels, asks a chat model where to
cut them, and produces captioned clips. It covers the parts of that pipeline
that are string, sequence and integer computation:

- **Timed text** (`Timestamp`, `Vtt`): the lenient timestamp reader
  `parseTimestamp` and the line loop of `parseVTTFile`. The file is a sequence
  of lines and time is integer milliseconds. The reader is modelled as the
  state machine the source runs, and it is proved equal to an independent
  description: each cue line grouped with the text lines that follow it.
- **SubRip output** (`Markup`, `Srt`): `cleanSubtitleText`, whose three
  regular-expression rewrites are modelled as explicit left-to-right scanners.
  Also `getSubtitlesForTimeRange`, which filters by overlap, clamps and
  renumbers, and `formatSRTTimestamp`.
- **Segment plan** (`Segments`): `splitLongVideo`, which leaves videos of up to
  20 minutes alone and otherwise cuts `ceil(d / 1200 s)` parts named
  `.part<i+1>`. The probe, the slicing commands and the file writes are inputs.
- **Per-cut decisions** (`Cuts`): in `DownloadVideo`, the duration guard, the
  caption file and transcript of each cut, and the word wrap of the cover
  title. A cut of a split video's part gives its times in seconds into the
  part, but its captions are read from the whole video's caption file with
  those same seconds; `PartCut` models that, so a cut of any part after the
  first is captioned from the start of the video.
- **Channel feed** (`Feed`): `GetLastVideos` with its `v=` shortcut, the video
  limit, its fatal errors, and `extractVideoID`.
- **Requests** (`Requests`): the three-attempt retry loops of `GetCuts` and
  `GenerateMetadata`, over a scripted sequence of attempt outcomes. The
  variable a response is decoded into is declared before the loop, so what
  one attempt's decoding writes, even a decoding that then fails part-way,
  stays for the attempts after it; a 200 body is modelled by what its
  decoding writes and whether it reported an error. Also the caption path
  that `GetCuts` derives from a subtitle name.
- **Command line** (`Cli`): the command dispatch of `main`, and the flag loop
  and channel selection of `handleExec`.

`Text` holds the Go string functions the code relies on:

- `strings.TrimSpace`, `Fields` (with the full `unicode.IsSpace` set), `Index`,
  `LastIndex`, `Split`, `Join` and `HasPrefix`/`TrimPrefix`;
- decimal formatting with `%d` and `%02d`;
- Go's truncating `/` and `%`.

`Outcomes` holds `Option` and `Result`.

## Model

| member | source | states |
|---|---|---|
| Text.TrimSpace | internal/videos/main.go:796 | The result is no longer than the input, and neither its first nor its last character is white space. |
| Text.TrimSpaceSlice | internal/videos/main.go:719 | The trimmed line is one contiguous piece of the input, and everything cut off on either side is white space. |
| Text.IndexOf | internal/videos/main.go:755 | The result is the position of the first occurrence of the separator, or -1 exactly when it occurs nowhere. |
| Text.LastIndexOfChar | internal/videos/main.go:131 | The result is the position of the last occurrence of the character, with none after it, or -1 when it does not occur. |
| Text.Split | internal/videos/main.go:761 | Splitting yields at least one piece, and at least two exactly when the separator occurs. |
| Text.SplitJoin | internal/videos/main.go:712 | Joining the pieces of a split with the separator gives the input back, and no piece contains the separator. |
| Text.SplitCharCount | internal/videos/main.go:761-764 | Splitting at a character yields one piece more than the character's occurrences, so fewer than two `:` means fewer than three fields. |
| Text.Fields | internal/videos/main.go:385 | Every field is a non-empty word without white space; with `Text.FieldsSkipSpace` (leading white space adds no field) and `Text.FieldsOfWord` (a word followed by white space, or by nothing, is the first field), the fields are the maximal runs of non-space characters, in order. |
| Text.FieldsSkipSpace | internal/videos/main.go:385 | White space before a text adds no field. |
| Text.FieldsOfWord | internal/videos/main.go:385 | A run of non-space characters ending at white space or at the end of the text is the first field, and the fields of the rest follow. |
| Text.FieldsOfJoin | internal/videos/main.go:394 | Words joined by white space split back into the same words, in order. |
| Text.NatToString | internal/videos/main.go:161 | `%d` of a natural number is a non-empty digit string whose decimal value is the number. |
| Text.NatToStringCanonical | internal/videos/main.go:161 | That string has no leading zero except for 0 itself, so it is one digit below 10 and two from 10 to 99. |
| Text.Pad2 | internal/videos/main.go:830 | `%02d` of a non-negative number has at least two digits and denotes the number; a negative number starts with `-`. |
| Text.Pad2Width | internal/videos/main.go:830 | `%02d` writes exactly two digits for 0 to 99, and the plain decimal text from 100 on. |
| Timestamp.Fraction3 | internal/videos/main.go:773-780 | The millisecond digits are exactly three: the given digits, right-padded with `0` and cut after the third. |
| Timestamp.BeforeSpaceOfAnnotated | internal/videos/main.go:755-757 | Everything from the first space on, such as a cue setting, is dropped. |
| Timestamp.ParseTimestampFields | internal/videos/main.go:754-785 | `ParseTimestamp` reads `H:M:S.fff` or `H:M:S,fff`, with or without a trailing annotation, as H hours + M minutes + S seconds + the first three fraction digits in milliseconds. |
| Timestamp.ParseTimestampWholeSeconds | internal/videos/main.go:769-784 | Without a fraction, the timestamp reads as H hours + M minutes + S seconds exactly. |
| Timestamp.ParseTimestampNeedsThreeFields | internal/videos/main.go:761-764 | A timestamp with fewer than two colons before its first space reads as zero. |
| Timestamp.FormatParseRoundTrip | internal/videos/main.go:826-831 | For every non-negative number of seconds, `ParseTimestamp` of the `HH:MM:SS,000` that `FormatSrtTimestamp` writes gives back exactly that many seconds. |
| Vtt.ParseLinesGroupsCues | internal/videos/main.go:712-751 | The entries of the reader `ParseLines` (the line step `Apply` folded over the lines, then the last entry flushed) equal the reference grouping: one entry per cue line, in file order, numbered from 1, with the times of its cue line and the following text lines joined by single spaces; skipped lines and text before the first cue line contribute nothing. |
| Vtt.ParseLinesNumbering | internal/videos/main.go:729-731 | There is one entry per cue line, and entry k carries the number k + 1. |
| Vtt.FeedSkipsLines | internal/videos/main.go:719-722 | Blank lines, `WEBVTT` and `NOTE` lines leave the reader unchanged; it acts only on the trimmed remaining lines. |
| Vtt.PreambleDropped | internal/videos/main.go:739-744 | Text lines before the first cue line are dropped. |
| Vtt.AppendAllJoins | internal/videos/main.go:740-743 | Appending text lines one by one, with a space before all but the first, joins them with single spaces. |
| Vtt.CueTimesOfTimingLine | internal/videos/main.go:733-737 | A cue line with exactly one arrow gets the trimmed sides of the arrow as its start and end. |
| Vtt.CueTimesManyArrows | internal/videos/main.go:733-737 | A cue line with more than one arrow keeps times of zero. |
| Markup.ReplaceAllOfScan | internal/videos/main.go:789-794 | A pass (`ReplaceAll`) over text cut into a left-to-right scan, where a kept character is one at which no match starts and a match is the whole match starting where it stands, gives the kept characters in order with each match replaced: deleted for the timing and style tags, one space for a double space. |
| Markup.Pieces | internal/videos/main.go:789-794 | Every text has such a scan, and its pieces put back together give the text. |
| Markup.ReplaceAllWithoutMatch | internal/videos/main.go:789-794 | Text with no match of a pattern comes through that pass unchanged. |
| Markup.NoTagsWithoutAngle | internal/videos/main.go:788-791 | Text without `<` holds no timing tag and no style tag. |
| Markup.CleanSubtitleText | internal/videos/main.go:787-797 | The cleaned text is trimmed and no longer than the input. |
| Markup.CleanPlainText | internal/videos/main.go:787-797 | Trimmed text with no `<` and no double space is left exactly as it is. |
| Markup.CleanTimedWord | internal/videos/main.go:788-796 | A caption line `a<hh:mm:ss.mmm><c>b</c>` cleans to `ab`: the timing tag and both style tags go. |
| Markup.CleanIsSinglePass | internal/videos/main.go:791-792 | A single pass does not rescan its own output: `<<c>c>x` becomes `<c>x`, not `x`. |
| Srt.AdjustedStart | internal/videos/main.go:808 | The retimed start is never negative, and it is the whole seconds from the window start to the entry's start, rounded down. |
| Srt.AdjustedEnd | internal/videos/main.go:809 | The retimed end is the smaller of the window's length and the seconds from the window start to the entry's end, truncated toward zero. |
| Srt.OverlappingMembers | internal/videos/main.go:807 | The reference filter keeps exactly the entries that start no later than the window ends and end no earlier than it starts. |
| Srt.SelectFrom | internal/videos/main.go:806-819 | The single loop equals the reference filter followed by the reference numbering, so order is kept and numbers run consecutively. |
| Srt.RenderAll | internal/videos/main.go:816-817 | The rendered text is empty exactly when there are no blocks. |
| Srt.EmptyIffNoOverlap | internal/videos/main.go:799-823 | `GetSubtitlesForTimeRange` gives the empty string exactly when no entry overlaps the window. |
| Srt.SelectWindowNumbering | internal/videos/main.go:804-818 | The blocks are numbered 1, 2, 3, ... in order. |
| Srt.BlockWithinWindow | internal/videos/main.go:808-809 | Every block starts at or after 0 and ends at or before the window's length; for a well-formed entry and window, its end is not before its start. |
| Srt.WindowExample | internal/videos/main.go:799-823 | Entries at 10-20 s and 25-35 s in the window 15-30 s become blocks 1 (0-5 s) and 2 (10-15 s). |
| Segments.SegmentCount | internal/videos/main.go:156 | The part count n is the ceiling: (n - 1) * 1200 s < duration <= n * 1200 s. |
| Segments.PartsCoverVideo | internal/videos/main.go:159-160 | Every instant of the video falls in exactly the part `t / 1200 s`, and that part exists. |
| Segments.Written | internal/videos/main.go:176-183 | A part's subtitle is listed exactly when the captions were readable and its write succeeded. |
| Segments.WrittenAscending | internal/videos/main.go:181 | Written subtitle parts are listed in ascending part order. |
| Segments.FirstFailure | internal/videos/main.go:172-174 | The first part whose slicing fails, with all earlier parts sliced, or none when all are sliced. |
| Segments.SliceFrom | internal/videos/main.go:159-186 | A failed slice stops the split with that part's 1-based number; otherwise every part's video is listed and the subtitles written are listed. |
| Segments.ShortVideoPassesThrough | internal/videos/main.go:152-154 | `SplitLongVideo` of a video of at most 1200 s yields just the original video and subtitle, with nothing sliced. |
| Segments.LongVideoPlan | internal/videos/main.go:156-188 | `SplitLongVideo` of a longer video reports the 1-based number of the first slice that fails; otherwise it yields n >= 2 video parts named `.part1.mp4` ... `.partN.mp4`. Part k is sliced from `1200 k` s for 1200 s into its own file, so the slices follow each other from 0 without gap or overlap, and the last starts inside the video and reaches its end. |
| Segments.LongVideoSubtitles | internal/videos/main.go:170-185 | When every slice succeeds, the subtitle parts are those whose file was written, in part order, each named after its own part and holding the captions of its own 1200 s window; there are none without readable captions, and never more than there are video parts. |
| Segments.PairAsWritten | internal/videos/main.go:277-280 | Positional pairing succeeds exactly when there are at least as many subtitle parts as video parts; otherwise it stops at the first missing index. |
| Segments.LongVideoWithoutCaptionsPanics | internal/videos/main.go:280 | A long video without readable captions has no subtitle parts, and the segment loop fails at its first part. |
| Segments.EarlyWriteFailureMisaligns | internal/videos/main.go:176-185 | When the first subtitle write of a 2500 s video fails, part 1 is paired with part 2's subtitle file. |
| Segments.Jobs | internal/videos/main.go:277-282 | The jobs of the corrected split are exactly the parts that carry a subtitle, each paired with that subtitle. |
| Segments.SplitIntoPartsAligned | internal/videos/main.go:135-189 | The corrected split `SplitIntoParts` fails exactly as the source's does and lists the same video parts; part k carries a subtitle exactly when the source wrote part k's file, and then it is that file. |
| Segments.JobsAligned | internal/videos/main.go:277-282 | The corrected jobs are, in part order, one per written subtitle part k, each joining video part k with subtitle part k. |
| Cuts.CutFitsBounds | internal/videos/main.go:301-304 | A cut is kept exactly when neither end lies past the segment's duration; an end equal to the duration is kept. |
| Cuts.ReversedCutFits | internal/videos/main.go:301-304 | A cut that ends before it begins still passes the guard. |
| Cuts.ProcessCut | internal/videos/main.go:301-326 | A cut is skipped exactly when it fails the guard; it is dropped exactly when it fits and its clip failed; it is kept without captions exactly when the clip was made and the captions were unreadable, or were readable and the caption file could not be written; it is captioned exactly when all of these succeeded. |
| Cuts.PartCutCaptionsIgnorePart | internal/videos/main.go:312-320 | A fitting cut of any part of a split video is captioned from the whole video's entries between its `begin` and `end` seconds, exactly as a cut of the first part would be. |
| Cuts.LaterPartCutMissesItsCaptions | internal/videos/main.go:312-320 | In part 2, a cut at 10-15 s, which shows 1210-1215 s of the video, gets no captions from an entry at 1210-1215 s, but does get those of an entry at 10-15 s. |
| Cuts.CaptionedCut | internal/videos/main.go:312-336 | A captioned cut gets the captions overlapping its range, empty only when no entry overlaps, and the transcript of the entries wholly inside it. |
| Cuts.InsideEntriesMembers | internal/videos/main.go:331-332 | The reference selection holds exactly the entries that start at or after the cut's begin and end at or before its end. |
| Cuts.CleanedAt | internal/videos/main.go:333 | Each selected entry contributes its cleaned text. |
| Cuts.GatherPrefixed | internal/videos/main.go:330-335 | The transcript loop equals the reference: each selected entry's cleaned text, in order, preceded by a space. |
| Cuts.TranscriptJoinsInsideEntries | internal/videos/main.go:328-336 | `Transcript` is the trimmed, space-joined cleaned text of exactly the entries inside the cut. |
| Cuts.InsideOverlaps | internal/videos/main.go:331-332 | An entry wholly inside a cut also overlaps it. |
| Cuts.StraddlingEntryOnlyCaptioned | internal/videos/main.go:320-332 | An entry that straddles the cut's start is captioned but left out of the transcript. |
| Cuts.Groups | internal/videos/main.go:389-395 | The words in groups of three, the last holding the rest: concatenated, the groups give back the words. |
| Cuts.GroupsCount | internal/videos/main.go:389 | There are ceil(words / 3) groups. |
| Cuts.ShortTitleVerbatim | internal/videos/main.go:386-387 | A title of at most three words is used as it is. |
| Cuts.WrapTitleKeepsWords | internal/videos/main.go:385-397 | Wrapping never changes a title's words or their order. |
| Cuts.WrapTitleLines | internal/videos/main.go:385-397 | `WrapTitle` turns a longer title into ceil(words / 3) lines. Each line but the last holds three words, the last holds one to three, and the lines' words in order are the title's. |
| Cuts.FieldsOfLines | internal/videos/main.go:394-396 | Groups of words joined into lines, and the lines joined by newlines, split back into all the words in order. |
| Feed.ExtractVideoId | internal/videos/main.go:130-133 | The ID is the input's ending after its last `:`, holds no `:`, and is the whole input when there is no `:`. |
| Feed.ExtractVideoIdLongest | internal/videos/main.go:130-133 | No longer colon-free ending exists. |
| Feed.ExtractFromFeedId | internal/videos/main.go:131 | A feed entry ID `yt:video:<id>` gives `<id>`. |
| Feed.VideoCount | internal/videos/main.go:113-121 | The count is the configured limit; a limit of 0 or over the feed's size means the whole feed, and a negative limit means none. |
| Feed.LastVideos | internal/videos/main.go:75-128 | A `v=<id>` channel gives just `<id>`. Otherwise the result is the IDs of the first feed entries, up to the limit, in feed order. |
| Feed.LastVideosFailures | internal/videos/main.go:87-109 | A failed request, read or decode, or an empty feed, is fatal, each with its own error; nothing else is. |
| Feed.SingleVideoOverride | internal/videos/main.go:78-82 | Overriding the channel ID with `v=<id>` yields that one video, whatever the feed holds. |
| Requests.Backoff | internal/videos/main.go:636-639 | The sleep before attempt k is `2 << (k - 1)` seconds. |
| Requests.RunFromSpec | internal/videos/main.go:900-954 | From any attempt on, the loop `RunFrom` continues to the first accepted attempt, or to the third. It sleeps 2 s and 4 s between attempts, its variable holds every 200 body up to its last attempt decoded in turn, and it ends with the last status reported. |
| Requests.RunSpec | internal/videos/main.go:635-673 | The loop `Run` makes at most three attempts, ending at the first accepted one. There is no sleep before the first attempt, then 2 s and 4 s. The status is the last one any attempt reported, and the variable holds every 200 body up to the last attempt, decoded in turn. |
| Requests.AcceptedMeansOk | internal/videos/main.go:664-672 | When a response ended the loop, the final status is 200. |
| Requests.GetCutsFromFirstParsedResponse | internal/videos/main.go:630-688 | `GetCuts` takes the first choice of the last choices list any 200 body wrote, up to the first body that decodes, or up to the third attempt when none does, and then only when the last status is 200. A decoding body's own choices are the ones used when it writes some, and without any 200 body there are no cuts. |
| Requests.LeftoverChoicesUsed | internal/videos/main.go:631-680 | A 200 body whose decoding wrote its choices and then failed, followed by two attempts without a response, still yields the cuts of its first choice. |
| Requests.RecoversOnThirdAttempt | internal/videos/main.go:630-688 | No response, then a 500, then a good response: three attempts, sleeps of 2 s and 4 s, and the third response's cuts. |
| Requests.GenerateMetadataAsWritten | internal/videos/main.go:956-960 | As written, the result is an error exactly when the last status is not 200. |
| Requests.EmptyMetadataReportedAsSuccess | internal/videos/main.go:945-960 | A 200 response with no choices, then two failed attempts, is reported as success with empty metadata. |
| Requests.PartialMetadataReportedAsSuccess | internal/videos/main.go:896-960 | Content whose decoding set the title and then failed, then two failed attempts, is reported as success with only that title. |
| Requests.PatchFields | internal/videos/main.go:949 | Content that sets every field replaces the whole metadata; a field the content does not set keeps its earlier value. |
| Requests.GenerateMetadataDecoded | internal/videos/main.go:896-960 | Corrected, `GenerateMetadata` succeeds exactly when some attempt's content decoded; the first such attempt is a 200 answer, and the metadata is every 200 body up to it decoded in turn, which is exactly its own fields when it sets all of them. |
| Requests.PartialDecodeCarriesOver | internal/videos/main.go:896-953 | A title written by a failed decoding stays when a later successful decoding sets only the description. |
| Requests.GenerateMetadataAgrees | internal/videos/main.go:949-960 | The corrected and as-written results agree on every success and every status error; where nothing decoded under a final 200, the source reports success with whatever earlier partial decodings left. |
| Requests.MetadataFileWritten | internal/videos/main.go:340-345 | As written, the clip's metadata file (`MetadataFile`) is written exactly when the last status is 200 and holds every 200 body decoded in turn; corrected (`MetadataFileCorrected`), exactly when some content decoded, and then the two files agree. |
| Requests.EmptyMetadataFileWritten | internal/videos/main.go:340-345 | A 200 response with no choices, then two failed attempts: the source writes a file of empty metadata, the corrected version none. |
| Requests.VttPathAtFirstPart | internal/videos/main.go:571-576 | `VttPath` of a name holding `.part` reads the caption file named after what precedes its first `.part`. |
| Requests.SegmentsReadWholeCaptions | internal/videos/main.go:574-576 | A segment's subtitle `<base>.part<k>.srt` makes the cut search read the whole video's caption file `<base>.srt.pt.vtt`. |
| Requests.FolderNamedLikeAPart | internal/videos/main.go:571-576 | A `.part` anywhere in the path, even in a folder name, cuts the path there. |
| Cli.Dispatch | main.go:54-75 | `exec` receives exactly the arguments after the command word. No arguments, or an unknown command, give the usage and exit. |
| Cli.DispatchByFirstWord | main.go:59-75 | `login`, `exec` and `help` each reach their own handler, and only the first word is looked at. |
| Cli.FlagValueOfId | main.go:143-145 | `-v=<id>` and `--v=<id>` name `<id>`, and a second `=` cuts the value there. |
| Cli.PositionalMembers | main.go:137-149 | An argument remains exactly when it is not `--force`, `-v=...` or `--v=...`. |
| Cli.StripFlags | main.go:137-149 | The loop leaves the non-flag arguments in their order, even with adjacent flags. `force` holds exactly when some argument is `--force`, and the video ID is the value of the last video flag, or empty. |
| Cli.Override | main.go:159-161 | Only the channel ID changes, to `v=<id>`, and only when a video was named. |
| Cli.FindChannel | main.go:157-167 | The first channel with the given ID is found, or none has it. |
| Cli.HandleExec | main.go:133-185 | With a positional argument, `Select` processes only the first configured channel with that ID, or reports the ID as not found exactly when no channel has it. Without one, every channel is processed in order, each with the same override and force flag. |
| Cli.VideoFlagSelectsOneVideo | main.go:159-161 | With a video named, every selected channel yields exactly that video, whatever its feed holds. |
| Cli.OptionsExample | main.go:137-149 | In `--force -v=abc news` only `news` remains, and the video named is `abc`. |
| Cli.ExecExample | main.go:54-167 | The command line `exec --force -v=abc news` reaches the exec handler with the words after `exec`, which processes only channel `news`, overridden to video `abc` and forced. |

## Left out

- Subprocesses (ffprobe, ffmpeg, yt-dlp, moviego) are not run. Their results are inputs: the probed duration, the success of each slice, clip and write, and whether the caption file could be read.
- HTTP, XML and JSON are out of scope: the feed fetch and decode, the chat requests, their prompts, and JSON encoding and decoding. Each attempt's outcome is an input. A chat response body is given by what its decoding writes into the response variable and whether it reported an error, not as JSON text. `time.Sleep` is returned as a list of delays.
- The request payload is a `bytes.Buffer` that the first attempt drains and later attempts reuse. That transport detail is not modelled; each attempt's outcome is given as it is.
- Floating point is replaced by integer milliseconds: the probe output, `video.Duration()`, `Seconds()`, and `math.Ceil`, `Max` and `Min`. Sub-millisecond durations are not represented. Truncation toward zero is written out.
- `time.ParseDuration` is modelled only for plain digit strings. A field with a sign, a decimal point or other characters reads as zero, although Go would accept forms such as `1.5h`.
- Go's 64-bit `time.Duration` overflow is not modelled; integers are unbounded.
- The filesystem is left out: the skip and force-wipe policy, directory creation, renames, removals and segment clean-up.
- Downloading videos and subtitles, burning captions into clips, and drawing cover images are left out as subprocess work. Only the title wrap of the cover is modelled.
- `UploadToYouTube`, the authentication package and the configuration loader are left out. They are I/O with no logic of their own; the configured channels are an input.
- Printing, colours and the help texts are left out; `log.Fatalf` and `os.Exit` become error results.
- Markup.CleanSubtitleText: it does not state that the cleaned text consists of characters of the input, kept in order. A proof of that over sequences of characters was beyond the verifier's resource budget. What is stated is that the result is trimmed and never longer, plus exact results for plain text, timed words and nested tags.
- Text.TrimSpace: its own contract states only the length bound and the trimmed ends. That the result is a contiguous piece of the input with white space cut from both sides is `Text.TrimSpaceSlice`.

## Findings

| source | as written | input that shows it | evidently intended | confidence | as-written member | corrected member |
|---|---|---|---|---|---|---|
| internal/videos/main.go:280 | Each video part takes `subtitleSegments[i]`. The subtitle list holds only the parts whose caption file was written, so it can be shorter than the video list, or shifted against it. | A 2500 s video whose first subtitle write fails: part 1 is paired with `.part2.srt`, and part 3 indexes past the end. A long video with no readable captions fails at part 1. | Each video part is paired with its own subtitle part, and parts without one are skipped. | not executed | Segments.PairAsWritten, Segments.EarlyWriteFailureMisaligns, Segments.LongVideoWithoutCaptionsPanics | Segments.SplitIntoPartsAligned, Segments.JobsAligned |
| internal/videos/main.go:945-960 | `GenerateMetadata` reports an error only when the last status is not 200. When a 200 response had no choices or an undecodable one and no later attempt succeeded, it returns with no error whatever earlier partial decodings left in the metadata, empty when none wrote a field, and that metadata file is written. | A first attempt answered 200 with no choices, then two attempts with no response. | Success only when some attempt decoded metadata, and an error otherwise. | not executed | Requests.GenerateMetadataAsWritten, Requests.EmptyMetadataReportedAsSuccess, Requests.PartialMetadataReportedAsSuccess, Requests.EmptyMetadataFileWritten | Requests.GenerateMetadataDecoded, Requests.GenerateMetadataAgrees, Requests.MetadataFileWritten |
