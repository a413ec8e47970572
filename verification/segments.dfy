/** `splitLongVideo`: the plan that cuts a long video into 20-minute parts,
    each with a SubRip caption file cut from the whole video's captions. The
    probe, the slicing commands and the file writes are inputs. */
module Segments {
  import opened Text
  import opened Outcomes
  import opened Timestamp
  import opened Vtt
  import opened Srt

  const SegmentSeconds: nat := 1200
  const SegmentMs: nat := SegmentSeconds * MsPerSecond

  /** What the duration probe gave: the command failed, its output was not a
      number, or a duration (milliseconds). */
  datatype Probe = ProbeCommandFailed | ProbeUnparsable | Probed(durationMs: int)

  datatype SplitError =
    | DurationUnavailable
    | DurationUnparsable
    | SliceFailed(part: nat)  // the 1-based number of the part that failed

  /** One slicing command: `-ss start -t length` in seconds, into `output`. */
  datatype Slice = Slice(start: nat, length: nat, output: string)

  /** The two lists `splitLongVideo` returns, the caption text written into
      each listed subtitle part, and the slicing commands it ran. */
  datatype Split = Split(videos: seq<string>, subtitles: seq<string>, captionTexts: seq<string>, slices: seq<Slice>)

  /** `ceil(duration / 1200 s)` for a positive duration. */
  function SegmentCount(durationMs: int): (n: nat)
    requires durationMs > 0
    ensures n >= 1
    ensures (n - 1) * SegmentMs < durationMs <= n * SegmentMs
  {
    var q := (durationMs + SegmentMs - 1) / SegmentMs;
    var r := (durationMs + SegmentMs - 1) % SegmentMs;
    assert durationMs + SegmentMs - 1 == q * SegmentMs + r;
    q
  }

  /** `<name without its 4-character extension>.part<i+1><ext>`. */
  function PartName(file: string, i: nat, ext: string): string
    requires |file| >= 4
  {
    file[..|file| - 4] + ".part" + Itoa(i + 1) + ext
  }

  /** Where part `i` starts, in seconds. */
  function PartStart(i: nat): nat {
    i * SegmentSeconds
  }

  /** The captions written for part `i`: the entries overlapping its
      20-minute window, in SubRip form. */
  function PartCaptions(entries: seq<Entry>, i: nat): string {
    WindowCaptions(entries, PartStart(i), SegmentSeconds)
  }

  /** The captions of the `length` seconds from `start`. */
  function WindowCaptions(entries: seq<Entry>, start: nat, length: nat): string {
    GetSubtitlesForTimeRange(entries, start, start + length)
  }

  // ---------------------------------------------------------------------------
  // The loop, over part numbers

  /** The part numbers `i .. n-1`. */
  function Range(i: nat, n: nat): (r: seq<nat>)
    ensures |r| == if i <= n then n - i else 0
    ensures forall j :: 0 <= j < |r| ==> r[j] == i + j
    decreases n - i
  {
    if i >= n then [] else [i] + Range(i + 1, n)
  }

  /** The parts among `i .. n-1` whose subtitle file was written, ascending. */
  function Written(i: nat, n: nat, captioned: bool, writeOk: nat -> bool): (r: seq<nat>)
    ensures |r| <= if i <= n then n - i else 0
    ensures forall k :: k in r <==> i <= k < n && captioned && writeOk(k)
    decreases n - i
  {
    if i >= n then []
    else (if captioned && writeOk(i) then [i] else []) + Written(i + 1, n, captioned, writeOk)
  }

  predicate Ascending(s: seq<nat>) {
    forall a, b :: 0 <= a < b < |s| ==> s[a] < s[b]
  }

  /** Every part listed by `Written` is listed once, in increasing order. */
  lemma {:induction false} WrittenAscending(i: nat, n: nat, captioned: bool, writeOk: nat -> bool)
    ensures Ascending(Written(i, n, captioned, writeOk))
    decreases n - i
  {
    if i < n {
      WrittenAscending(i + 1, n, captioned, writeOk);
      var rest := Written(i + 1, n, captioned, writeOk);
      var r := Written(i, n, captioned, writeOk);
      if captioned && writeOk(i) {
        assert r == [i] + rest;
        ConsAscending(i, rest);
      } else {
        assert r == [] + rest == rest;
      }
    }
  }

  lemma ConsAscending(i: nat, rest: seq<nat>)
    requires Ascending(rest)
    requires forall k :: k in rest ==> i < k
    ensures Ascending([i] + rest)
  {
    var r := [i] + rest;
    forall a, b | 0 <= a < b < |r| ensures r[a] < r[b] {
      assert r[b] == rest[b - 1] && rest[b - 1] in rest;
      if a > 0 {
        assert r[a] == rest[a - 1];
      }
    }
  }

  /** One step of `Written`. */
  lemma WrittenStep(i: nat, n: nat, captioned: bool, writeOk: nat -> bool, acc: seq<nat>)
    requires i < n
    ensures (if captioned && writeOk(i) then acc + [i] else acc) + Written(i + 1, n, captioned, writeOk)
         == acc + Written(i, n, captioned, writeOk)
  {
    if !(captioned && writeOk(i)) {
      assert [] + Written(i + 1, n, captioned, writeOk) == Written(i + 1, n, captioned, writeOk);
    }
  }

  lemma RangeStep(i: nat, n: nat, acc: seq<nat>)
    requires i < n
    ensures acc + [i] + Range(i + 1, n) == acc + Range(i, n)
  {
  }

  /** The first part among `i .. n-1` whose slicing fails, if any. */
  function FirstFailure(i: nat, n: nat, sliceOk: nat -> bool): (r: Option<nat>)
    ensures r.None? <==> forall k :: i <= k < n ==> sliceOk(k)
    ensures r.Some? ==> i <= r.value < n && !sliceOk(r.value) && forall k :: i <= k < r.value ==> sliceOk(k)
    decreases n - i
  {
    if i >= n then None else if !sliceOk(i) then Some(i) else FirstFailure(i + 1, n, sliceOk)
  }

  /** The parts listed so far: video parts and written subtitle parts. */
  datatype Listed = Listed(videos: seq<nat>, subtitles: seq<nat>)

  /** Parts `i .. n-1` of the slicing loop: a failed slice stops everything;
      otherwise each part's video is listed, and its subtitle part is listed
      only when the captions could be read and its file was written. */
  function SliceFrom(i: nat, n: nat, sliceOk: nat -> bool, captioned: bool, writeOk: nat -> bool,
                     acc: Listed): (r: Result<Listed, SplitError>)
    ensures FirstFailure(i, n, sliceOk).Some? ==> r == Err(SliceFailed(FirstFailure(i, n, sliceOk).value + 1))
    ensures FirstFailure(i, n, sliceOk).None? ==>
      r == Ok(Listed(acc.videos + Range(i, n), acc.subtitles + Written(i, n, captioned, writeOk)))
    decreases n - i
  {
    if i >= n then
      assert acc.videos + [] == acc.videos;
      assert acc.subtitles + [] == acc.subtitles;
      Ok(acc)
    else if !sliceOk(i) then Err(SliceFailed(i + 1))
    else
      var written := captioned && writeOk(i);
      var next := Listed(acc.videos + [i], if written then acc.subtitles + [i] else acc.subtitles);
      RangeStep(i, n, acc.videos);
      WrittenStep(i, n, captioned, writeOk, acc.subtitles);
      SliceFrom(i + 1, n, sliceOk, captioned, writeOk, next)
  }

  /** The file names of the given parts. */
  function Names(file: string, parts: seq<nat>, ext: string): (r: seq<string>)
    requires |file| >= 4
    ensures |r| == |parts|
  {
    seq(|parts|, j requires 0 <= j < |parts| => PartName(file, parts[j], ext))
  }

  /** The slicing command of part `k`: the 20 minutes from `1200 k` s. */
  function SliceOf(file: string, k: nat): Slice
    requires |file| >= 4
  {
    Slice(PartStart(k), SegmentSeconds, PartName(file, k, ".mp4"))
  }

  /** The slicing commands of the given parts. */
  function Slices(file: string, parts: seq<nat>): (r: seq<Slice>)
    requires |file| >= 4
    ensures |r| == |parts|
  {
    seq(|parts|, j requires 0 <= j < |parts| => SliceOf(file, parts[j]))
  }

  /** The caption text of the given parts. */
  function Texts(entries: seq<Entry>, parts: seq<nat>): (r: seq<string>)
    ensures |r| == |parts|
  {
    seq(|parts|, j requires 0 <= j < |parts| => PartCaptions(entries, parts[j]))
  }

  /** `splitLongVideo`. Names are cut four characters short before the part
      suffix, which the source does only for long videos. */
  function SplitLongVideo(video: string, subtitle: string, probe: Probe, sliceOk: nat -> bool,
                          captions: Option<seq<Entry>>, writeOk: nat -> bool): Result<Split, SplitError>
    requires probe.Probed? && probe.durationMs > SegmentMs ==> |video| >= 4 && |subtitle| >= 4
  {
    match probe
    case ProbeCommandFailed => Err(DurationUnavailable)
    case ProbeUnparsable => Err(DurationUnparsable)
    case Probed(d) =>
      if d <= SegmentMs then Ok(Split([video], [subtitle], [], []))
      else
        match SliceFrom(0, SegmentCount(d), sliceOk, captions.Some?, writeOk, Listed([], []))
        case Err(e) => Err(e)
        case Ok(listed) =>
          Ok(Split(Names(video, listed.videos, ".mp4"), Names(subtitle, listed.subtitles, ".srt"),
                   if captions.Some? then Texts(captions.value, listed.subtitles) else [],
                   Slices(video, listed.videos)))
  }

  // ---------------------------------------------------------------------------
  // Properties

  /** A video of at most 20 minutes is passed through with its subtitle. */
  lemma ShortVideoPassesThrough(video: string, subtitle: string, d: int, sliceOk: nat -> bool,
                                captions: Option<seq<Entry>>, writeOk: nat -> bool)
    requires d <= SegmentMs
    ensures SplitLongVideo(video, subtitle, Probed(d), sliceOk, captions, writeOk) == Ok(Split([video], [subtitle], [], []))
  {
  }

  /** A longer video becomes `n = ceil(d / 20 min)` parts named `.part1` to
      `.partN`, unless a slice fails, in which case the first failing part is
      reported. Part `k` is sliced from `1200 k` s for 1200 s into its own
      file, so the slices follow each other without gap or overlap from the
      start and the last one starts inside the video and reaches its end. */
  lemma LongVideoPlan(video: string, subtitle: string, d: int, sliceOk: nat -> bool,
                      captions: Option<seq<Entry>>, writeOk: nat -> bool)
    requires d > SegmentMs
    requires |video| >= 4 && |subtitle| >= 4
    ensures var n := SegmentCount(d);
      var r := SplitLongVideo(video, subtitle, Probed(d), sliceOk, captions, writeOk);
      && n >= 2
      && (FirstFailure(0, n, sliceOk).Some? ==> r == Err(SliceFailed(FirstFailure(0, n, sliceOk).value + 1)))
      && (FirstFailure(0, n, sliceOk).None? ==>
            && r.Ok?
            && |r.value.videos| == n
            && (forall k :: 0 <= k < n ==> r.value.videos[k] == PartName(video, k, ".mp4"))
            && SlicesCover(r.value.slices, r.value.videos, d))
  {
    var n := SegmentCount(d);
    LongVideoResult(video, subtitle, d, sliceOk, captions, writeOk);
    SegmentCountOfLong(d);
    if FirstFailure(0, n, sliceOk).None? {
      PartsOfPlan(video, d, SplitLongVideo(video, subtitle, Probed(d), sliceOk, captions, writeOk).value);
    }
  }

  lemma SegmentCountOfLong(d: int)
    requires d > SegmentMs
    ensures SegmentCount(d) >= 2
  {
  }

  /** The video parts and slices of a long video's plan. */
  lemma PartsOfPlan(video: string, d: int, sp: Split)
    requires d > 0 && |video| >= 4
    requires sp.videos == Names(video, Range(0, SegmentCount(d)), ".mp4")
    requires sp.slices == Slices(video, Range(0, SegmentCount(d)))
    ensures |sp.videos| == SegmentCount(d)
    ensures forall k :: 0 <= k < SegmentCount(d) ==> sp.videos[k] == PartName(video, k, ".mp4")
    ensures SlicesCover(sp.slices, sp.videos, d)
  {
    NamesOfRange(video, SegmentCount(d), ".mp4");
    SliceWindows(video, d);
  }

  /** When a long video is sliced, its subtitle parts are those whose file
      was written, in part order, each named after its own part and holding
      the captions of that part's window, so there are never more subtitle
      parts than video parts; without readable captions there are none. */
  lemma LongVideoSubtitles(video: string, subtitle: string, d: int, sliceOk: nat -> bool,
                           captions: Option<seq<Entry>>, writeOk: nat -> bool)
    requires d > SegmentMs
    requires |video| >= 4 && |subtitle| >= 4
    ensures var n := SegmentCount(d);
      var r := SplitLongVideo(video, subtitle, Probed(d), sliceOk, captions, writeOk);
      var ws := Written(0, n, captions.Some?, writeOk);
      FirstFailure(0, n, sliceOk).None? ==>
        && r.Ok?
        && |r.value.subtitles| == |ws| <= n
        && (forall j :: 0 <= j < |ws| ==> r.value.subtitles[j] == PartName(subtitle, ws[j], ".srt"))
        && (captions.None? ==> r.value.subtitles == [] && r.value.captionTexts == [])
        && (captions.Some? ==> r.value.captionTexts == Texts(captions.value, ws))
        && (captions.Some? ==> CaptionsOfWindows(r.value.captionTexts, captions.value, ws))
  {
    var n := SegmentCount(d);
    var ws := Written(0, n, captions.Some?, writeOk);
    LongVideoResult(video, subtitle, d, sliceOk, captions, writeOk);
    if FirstFailure(0, n, sliceOk).None? {
      if captions.None? {
        WrittenUncaptioned(0, n, writeOk);
      } else {
        TextsOfWindows(captions.value, ws);
      }
    }
  }

  /** The slices are consecutive 20-minute windows from the start, part `k`
      sliced into `videos[k]`, and the last one starts inside the video of
      `d` ms and reaches its end. */
  predicate SlicesCover(sl: seq<Slice>, videos: seq<string>, d: int) {
    && |sl| == |videos| > 0
    && (forall k :: 0 <= k < |sl| ==> sl[k].output == videos[k])
    && (forall k :: 0 <= k < |sl| ==> sl[k].start == k * SegmentSeconds && sl[k].length == SegmentSeconds)
    && (forall k :: 0 <= k < |sl| - 1 ==> sl[k].start + sl[k].length == sl[k + 1].start)
    && sl[|sl| - 1].start * MsPerSecond < d <= (sl[|sl| - 1].start + sl[|sl| - 1].length) * MsPerSecond
  }

  /** The `j`-th caption text holds the captions of the window of part `ws[j]`. */
  predicate CaptionsOfWindows(texts: seq<string>, entries: seq<Entry>, ws: seq<nat>) {
    |texts| == |ws| && forall j :: 0 <= j < |ws| ==> texts[j] == WindowCaptions(entries, ws[j] * SegmentSeconds, SegmentSeconds)
  }

  lemma TextsOfWindows(entries: seq<Entry>, ws: seq<nat>)
    ensures CaptionsOfWindows(Texts(entries, ws), entries, ws)
  {
  }

  /** The slicing commands of all parts of a long video cover it. */
  lemma SliceWindows(video: string, d: int)
    requires d > 0 && |video| >= 4
    ensures var n := SegmentCount(d);
      SlicesCover(Slices(video, Range(0, n)), Names(video, Range(0, n), ".mp4"), d)
  {
    var n := SegmentCount(d);
    var sl := Slices(video, Range(0, n));
    var vs := Names(video, Range(0, n), ".mp4");
    forall k | 0 <= k < n
      ensures sl[k].output == vs[k] && sl[k].start == k * SegmentSeconds && sl[k].length == SegmentSeconds
    {
      assert Range(0, n)[k] == k;
      assert sl[k] == SliceOf(video, k);
    }
    LastSliceReachesEnd(d);
  }

  /** The last of `n` slices starts inside the video and reaches its end. */
  lemma LastSliceReachesEnd(d: int)
    requires d > 0
    ensures var n := SegmentCount(d);
      (n - 1) * SegmentSeconds * MsPerSecond < d <= ((n - 1) * SegmentSeconds + SegmentSeconds) * MsPerSecond
  {
    var n := SegmentCount(d);
    assert (n - 1) * SegmentSeconds * MsPerSecond == (n - 1) * SegmentMs;
    assert ((n - 1) * SegmentSeconds + SegmentSeconds) * MsPerSecond == n * SegmentMs;
  }

  /** The result for a long video, in terms of the parts the loop lists. */
  lemma LongVideoResult(video: string, subtitle: string, d: int, sliceOk: nat -> bool,
                        captions: Option<seq<Entry>>, writeOk: nat -> bool)
    requires d > SegmentMs
    requires |video| >= 4 && |subtitle| >= 4
    ensures var n := SegmentCount(d);
      var r := SplitLongVideo(video, subtitle, Probed(d), sliceOk, captions, writeOk);
      var ws := Written(0, n, captions.Some?, writeOk);
      && (FirstFailure(0, n, sliceOk).Some? ==> r == Err(SliceFailed(FirstFailure(0, n, sliceOk).value + 1)))
      && (FirstFailure(0, n, sliceOk).None? ==>
            r == Ok(Split(Names(video, Range(0, n), ".mp4"), Names(subtitle, ws, ".srt"),
                          if captions.Some? then Texts(captions.value, ws) else [],
                          Slices(video, Range(0, n)))))
  {
    LongVideoListed(d, sliceOk, captions.Some?, writeOk);
  }

  lemma NamesOfRange(file: string, n: nat, ext: string)
    requires |file| >= 4
    ensures forall k :: 0 <= k < n ==> Names(file, Range(0, n), ext)[k] == PartName(file, k, ext)
  {
    var r := Range(0, n);
    forall k | 0 <= k < n ensures Names(file, r, ext)[k] == PartName(file, k, ext) {
      assert r[k] == k;
    }
  }

  /** What the slicing loop lists for a long video, before naming. */
  lemma LongVideoListed(d: int, sliceOk: nat -> bool, captioned: bool, writeOk: nat -> bool)
    requires d > SegmentMs
    ensures var n := SegmentCount(d);
      FirstFailure(0, n, sliceOk).None? ==>
        SliceFrom(0, n, sliceOk, captioned, writeOk, Listed([], [])) == Ok(Listed(Range(0, n), Written(0, n, captioned, writeOk)))
  {
    var n := SegmentCount(d);
    assert [] + Range(0, n) == Range(0, n);
    assert [] + Written(0, n, captioned, writeOk) == Written(0, n, captioned, writeOk);
  }

  /** The parts' windows cover the whole video: every instant before its end
      falls in exactly one part's `[1200 k, 1200 (k+1))`. */
  lemma PartsCoverVideo(d: int, t: int)
    requires d > 0 && 0 <= t < d
    ensures var k := t / SegmentMs;
      0 <= k < SegmentCount(d) && k * SegmentMs <= t < (k + 1) * SegmentMs
  {
    var n := SegmentCount(d);
    var k := t / SegmentMs;
    assert t == k * SegmentMs + t % SegmentMs;
    assert k * SegmentMs < n * SegmentMs;
  }

  // ---------------------------------------------------------------------------
  // Pairing parts for the cut search

  /** A video part and the subtitle file handed to the cut search with it. */
  datatype SegmentJob = SegmentJob(video: string, subtitle: string)

  /** How the segment loop of `DownloadVideo` pairs the two lists: part `i`
      takes `subtitles[i]`, so a shorter subtitle list stops the program with
      an index out of range after the parts before it. */
  datatype Pairing = Paired(jobs: seq<SegmentJob>) | IndexPanic(before: seq<SegmentJob>, index: nat)

  function PairAsWritten(videos: seq<string>, subtitles: seq<string>): (p: Pairing)
    ensures p.Paired? <==> |subtitles| >= |videos|
    ensures p.Paired? ==> |p.jobs| == |videos|
    ensures p.IndexPanic? ==> p.index == |subtitles| && |p.before| == |subtitles|
    ensures forall k :: 0 <= k < |videos| && k < |subtitles| ==>
      (if p.Paired? then p.jobs[k] else p.before[k]) == SegmentJob(videos[k], subtitles[k])
  {
    if |subtitles| >= |videos| then
      Paired(seq(|videos|, k requires 0 <= k < |videos| => SegmentJob(videos[k], subtitles[k])))
    else
      IndexPanic(seq(|subtitles|, k requires 0 <= k < |subtitles| => SegmentJob(videos[k], subtitles[k])), |subtitles|)
  }

  lemma {:induction false} WrittenUncaptioned(i: nat, n: nat, writeOk: nat -> bool)
    ensures Written(i, n, false, writeOk) == []
    decreases n - i
  {
    if i < n {
      WrittenUncaptioned(i + 1, n, writeOk);
    }
  }

  /** A video longer than 20 minutes with no readable captions gets no
      subtitle parts, and the segment loop fails on its very first part. */
  lemma LongVideoWithoutCaptionsPanics(video: string, subtitle: string, d: int, writeOk: nat -> bool)
    requires d > SegmentMs
    requires |video| >= 4 && |subtitle| >= 4
    ensures var r := SplitLongVideo(video, subtitle, Probed(d), k => true, None, writeOk);
      r.Ok? && PairAsWritten(r.value.videos, r.value.subtitles) == IndexPanic([], 0)
  {
    var ok: nat -> bool := k => true;
    LongVideoPlan(video, subtitle, d, ok, None, writeOk);
    LongVideoSubtitles(video, subtitle, d, ok, None, writeOk);
  }

  /** When a write fails early, positional pairing gives a part another
      part's subtitle file: for a 2500-second video whose first subtitle
      write fails, part 1 is paired with the part-2 subtitle. */
  lemma EarlyWriteFailureMisaligns(video: string, subtitle: string, entries: seq<Entry>)
    requires |video| >= 4 && |subtitle| >= 4
    ensures var r := SplitLongVideo(video, subtitle, Probed(2500 * MsPerSecond), k => true, Some(entries), k => k != 0);
      && r.Ok?
      && PairAsWritten(r.value.videos, r.value.subtitles).IndexPanic?
      && PairAsWritten(r.value.videos, r.value.subtitles).before[0]
         == SegmentJob(PartName(video, 0, ".mp4"), PartName(subtitle, 1, ".srt"))
  {
    var d := 2500 * MsPerSecond;
    assert SegmentCount(d) == 3;
    var ok: nat -> bool := k => true;
    var wr: nat -> bool := k => k != 0;
    LongVideoPlan(video, subtitle, d, ok, Some(entries), wr);
    LongVideoSubtitles(video, subtitle, d, ok, Some(entries), wr);
    FirstWriteFailed(wr);
  }

  lemma FirstWriteFailed(wr: nat -> bool)
    requires forall k :: wr(k) == (k != 0)
    ensures Written(0, 3, true, wr) == [1, 2]
  {
    assert Written(3, 3, true, wr) == [];
    assert Written(2, 3, true, wr) == [2];
    assert Written(1, 3, true, wr) == [1, 2];
  }

  /** One part of the corrected split: its video file and, when it was
      written, its own subtitle file. */
  datatype Part = Part(video: string, subtitle: Option<string>)

  /** The split with each part keeping its own (possibly missing) subtitle,
      so that no lookup by position is needed. */
  function SplitIntoParts(video: string, subtitle: string, probe: Probe, sliceOk: nat -> bool,
                          captions: Option<seq<Entry>>, writeOk: nat -> bool): Result<seq<Part>, SplitError>
    requires probe.Probed? && probe.durationMs > SegmentMs ==> |video| >= 4 && |subtitle| >= 4
  {
    match probe
    case ProbeCommandFailed => Err(DurationUnavailable)
    case ProbeUnparsable => Err(DurationUnparsable)
    case Probed(d) =>
      if d <= SegmentMs then Ok([Part(video, Some(subtitle))])
      else
        var n := SegmentCount(d);
        var failure := FirstFailure(0, n, sliceOk);
        if failure.Some? then Err(SliceFailed(failure.value + 1))
        else
          Ok(seq(n, k requires 0 <= k < n =>
            Part(PartName(video, k, ".mp4"),
                 if captions.Some? && writeOk(k) then Some(PartName(subtitle, k, ".srt")) else None)))
  }

  /** The segment jobs from the corrected split: each captioned part with its
      own subtitle file, in part order. */
  function Jobs(parts: seq<Part>): (jobs: seq<SegmentJob>)
    ensures |jobs| <= |parts|
    ensures forall j :: j in jobs ==> exists p :: p in parts && p.subtitle.Some? && j == SegmentJob(p.video, p.subtitle.value)
    ensures forall k :: 0 <= k < |parts| && parts[k].subtitle.Some? ==> SegmentJob(parts[k].video, parts[k].subtitle.value) in jobs
  {
    if |parts| == 0 then []
    else
      var rest := Jobs(parts[1..]);
      assert forall p :: p in parts[1..] ==> p in parts;
      assert forall k :: 1 <= k < |parts| ==> parts[k] == parts[1..][k - 1];
      (if parts[0].subtitle.Some? then [SegmentJob(parts[0].video, parts[0].subtitle.value)] else []) + rest
  }

  /** The corrected split fails exactly as the source's does and lists the
      same video parts; part `k` carries a subtitle exactly when the source
      listed subtitle part `k`, and then it is that part's file. */
  lemma SplitIntoPartsAligned(video: string, subtitle: string, d: int, sliceOk: nat -> bool,
                              captions: Option<seq<Entry>>, writeOk: nat -> bool)
    requires d > SegmentMs
    requires |video| >= 4 && |subtitle| >= 4
    ensures var r := SplitIntoParts(video, subtitle, Probed(d), sliceOk, captions, writeOk);
      var s := SplitLongVideo(video, subtitle, Probed(d), sliceOk, captions, writeOk);
      var ws := Written(0, SegmentCount(d), captions.Some?, writeOk);
      && r.Err? == s.Err?
      && (r.Err? ==> r.error == s.error)
      && (r.Ok? ==>
            && |r.value| == |s.value.videos|
            && forall k :: 0 <= k < |r.value| ==>
                 && r.value[k].video == s.value.videos[k]
                 && (r.value[k].subtitle.Some? <==> k in ws)
                 && (r.value[k].subtitle.Some? ==> r.value[k].subtitle.value == PartName(subtitle, k, ".srt")))
  {
    LongVideoPlan(video, subtitle, d, sliceOk, captions, writeOk);
    var r := SplitIntoParts(video, subtitle, Probed(d), sliceOk, captions, writeOk);
    var s := SplitLongVideo(video, subtitle, Probed(d), sliceOk, captions, writeOk);
    var n := SegmentCount(d);
    if r.Ok? {
      var ws := Written(0, n, captions.Some?, writeOk);
      forall k | 0 <= k < |r.value|
        ensures r.value[k].video == s.value.videos[k]
        ensures r.value[k].subtitle.Some? <==> k in ws
        ensures r.value[k].subtitle.Some? ==> r.value[k].subtitle.value == PartName(subtitle, k, ".srt")
      {
        assert r.value[k] == Part(PartName(video, k, ".mp4"),
                                  if captions.Some? && writeOk(k) then Some(PartName(subtitle, k, ".srt")) else None);
      }
    }
  }

  /** The jobs of the given part numbers: each video part with the
      subtitle part of the same number. */
  function OwnJobs(video: string, subtitle: string, ws: seq<nat>): (jobs: seq<SegmentJob>)
    requires |video| >= 4 && |subtitle| >= 4
    ensures |jobs| == |ws|
  {
    seq(|ws|, j requires 0 <= j < |ws| => SegmentJob(PartName(video, ws[j], ".mp4"), PartName(subtitle, ws[j], ".srt")))
  }

  lemma OwnJobsCons(video: string, subtitle: string, i: nat, rest: seq<nat>)
    requires |video| >= 4 && |subtitle| >= 4
    ensures OwnJobs(video, subtitle, [i] + rest)
         == [SegmentJob(PartName(video, i, ".mp4"), PartName(subtitle, i, ".srt"))] + OwnJobs(video, subtitle, rest)
  {
    var ws := [i] + rest;
    var l := OwnJobs(video, subtitle, ws);
    var r := [SegmentJob(PartName(video, i, ".mp4"), PartName(subtitle, i, ".srt"))] + OwnJobs(video, subtitle, rest);
    forall j | 0 <= j < |ws| ensures l[j] == r[j] {
      if j > 0 {
        assert ws[j] == rest[j - 1];
      }
    }
  }

  /** The corrected pairing yields one job for each part whose subtitle was
      written, in part order, joining video part `k` with subtitle part `k`;
      every job joins parts of the same number. */
  lemma JobsAligned(video: string, subtitle: string, d: int, sliceOk: nat -> bool,
                    captions: Option<seq<Entry>>, writeOk: nat -> bool)
    requires d > SegmentMs
    requires |video| >= 4 && |subtitle| >= 4
    ensures var r := SplitIntoParts(video, subtitle, Probed(d), sliceOk, captions, writeOk);
      r.Ok? ==>
        && Jobs(r.value) == OwnJobs(video, subtitle, Written(0, SegmentCount(d), captions.Some?, writeOk))
        && forall j :: j in Jobs(r.value) ==>
             exists k: nat :: j == SegmentJob(PartName(video, k, ".mp4"), PartName(subtitle, k, ".srt"))
  {
    var r := SplitIntoParts(video, subtitle, Probed(d), sliceOk, captions, writeOk);
    if r.Ok? {
      var n := SegmentCount(d);
      JobsFrom(video, subtitle, r.value, captions.Some?, writeOk, 0);
      assert r.value[0..] == r.value;
      JobsOfNumberedParts(r.value, video, subtitle);
    }
  }

  /** The jobs of parts `i ..` are the jobs of the written parts among them. */
  lemma {:induction false} JobsFrom(video: string, subtitle: string, parts: seq<Part>, captioned: bool,
                                    writeOk: nat -> bool, i: nat)
    requires |video| >= 4 && |subtitle| >= 4
    requires i <= |parts|
    requires forall k :: 0 <= k < |parts| ==>
      parts[k] == Part(PartName(video, k, ".mp4"), if captioned && writeOk(k) then Some(PartName(subtitle, k, ".srt")) else None)
    ensures Jobs(parts[i..]) == OwnJobs(video, subtitle, Written(i, |parts|, captioned, writeOk))
    decreases |parts| - i
  {
    if i < |parts| {
      JobsFrom(video, subtitle, parts, captioned, writeOk, i + 1);
      assert parts[i..][1..] == parts[i + 1..];
      var rest := Written(i + 1, |parts|, captioned, writeOk);
      if captioned && writeOk(i) {
        assert Written(i, |parts|, captioned, writeOk) == [i] + rest;
        OwnJobsCons(video, subtitle, i, rest);
      } else {
        assert Written(i, |parts|, captioned, writeOk) == rest;
        assert Jobs(parts[i..]) == [] + Jobs(parts[i + 1..]);
      }
    }
  }

  /** Part `k` is named for part `k`, and so is its subtitle, if any. */
  predicate NumberedParts(parts: seq<Part>, video: string, subtitle: string)
    requires |video| >= 4 && |subtitle| >= 4
  {
    forall k :: 0 <= k < |parts| ==>
      && parts[k].video == PartName(video, k, ".mp4")
      && (parts[k].subtitle.Some? ==> parts[k].subtitle.value == PartName(subtitle, k, ".srt"))
  }

  lemma JobsOfNumberedParts(parts: seq<Part>, video: string, subtitle: string)
    requires |video| >= 4 && |subtitle| >= 4
    requires NumberedParts(parts, video, subtitle)
    ensures forall j :: j in Jobs(parts) ==>
      exists k: nat :: j == SegmentJob(PartName(video, k, ".mp4"), PartName(subtitle, k, ".srt"))
  {
    forall j | j in Jobs(parts)
      ensures exists k: nat :: j == SegmentJob(PartName(video, k, ".mp4"), PartName(subtitle, k, ".srt"))
    {
      var p :| p in parts && p.subtitle.Some? && j == SegmentJob(p.video, p.subtitle.value);
      var k :| 0 <= k < |parts| && parts[k] == p;
    }
  }
}
