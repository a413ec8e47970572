/** What `DownloadVideo` decides for each cut the model suggests: whether
    the cut fits the segment, the captions and transcript it gets, and how
    its title is wrapped for the cover image. Clipping, writing and
    captioning commands are inputs. */
module Cuts {
  import opened Text
  import opened Outcomes
  import opened Timestamp
  import opened Markup
  import opened Vtt
  import opened Srt
  import Segments

  /** A suggested cut; `begin` and `end` are whole seconds. */
  datatype Cut = Cut(title: string, begin: int, end: int)

  // ---------------------------------------------------------------------------
  // The duration guard

  /** A cut is kept unless its start or its end lies past the segment's
      duration; a cut ending exactly at the end is kept, and nothing checks
      that it starts before it ends. */
  predicate CutFits(durationMs: int, c: Cut) {
    !(durationMs < c.begin * MsPerSecond || durationMs < c.end * MsPerSecond)
  }

  /** The guard is a bound on both ends and only that. */
  lemma CutFitsBounds(durationMs: int, c: Cut)
    ensures CutFits(durationMs, c) <==> c.begin * MsPerSecond <= durationMs && c.end * MsPerSecond <= durationMs
    ensures c.end * MsPerSecond == durationMs && c.begin * MsPerSecond <= durationMs ==> CutFits(durationMs, c)
  {
  }

  /** A reversed cut inside the segment passes the guard. */
  lemma ReversedCutFits(durationMs: int, title: string)
    requires durationMs >= 20 * MsPerSecond
    ensures CutFits(durationMs, Cut(title, 20, 10))
  {
  }

  // ---------------------------------------------------------------------------
  // The transcript

  /** An entry lies wholly inside the cut. */
  predicate Inside(e: Entry, c: Cut) {
    e.start >= c.begin * MsPerSecond && e.end <= c.end * MsPerSecond
  }

  /** The loop that collects the transcript: every entry inside the cut, in
      order, adds a space and its cleaned text. */
  function Gather(entries: seq<Entry>, c: Cut): string {
    if |entries| == 0 then ""
    else
      (if Inside(entries[0], c) then " " + CleanSubtitleText(entries[0].text) else "")
        + Gather(entries[1..], c)
  }

  /** The transcript handed to the metadata request. */
  function Transcript(entries: seq<Entry>, c: Cut): string {
    TrimSpace(Gather(entries, c))
  }

  /** The reference selection: the entries inside the cut, in order. */
  function InsideEntries(entries: seq<Entry>, c: Cut): (r: seq<Entry>)
    ensures |r| <= |entries|
  {
    if |entries| == 0 then []
    else (if Inside(entries[0], c) then [entries[0]] else []) + InsideEntries(entries[1..], c)
  }

  lemma {:induction false} InsideEntriesMembers(entries: seq<Entry>, c: Cut)
    ensures forall e :: e in InsideEntries(entries, c) <==> e in entries && Inside(e, c)
  {
    if |entries| > 0 {
      InsideEntriesMembers(entries[1..], c);
      assert entries == [entries[0]] + entries[1..];
    }
  }

  /** The cleaned text of each entry. */
  function Cleaned(es: seq<Entry>): (r: seq<string>)
    ensures |r| == |es|
  {
    if |es| == 0 then [] else [CleanSubtitleText(es[0].text)] + Cleaned(es[1..])
  }

  lemma {:induction false} CleanedAt(es: seq<Entry>, k: nat)
    requires k < |es|
    ensures Cleaned(es)[k] == CleanSubtitleText(es[k].text)
    decreases k
  {
    if k > 0 {
      CleanedAt(es[1..], k - 1);
    }
  }

  /** Each text preceded by a space, concatenated. */
  function Prefixed(xs: seq<string>): string {
    if |xs| == 0 then "" else " " + xs[0] + Prefixed(xs[1..])
  }

  lemma {:induction false} PrefixedJoin(xs: seq<string>)
    requires |xs| > 0
    ensures Prefixed(xs) == " " + Join(xs, " ")
  {
    if |xs| > 1 {
      PrefixedJoin(xs[1..]);
    } else {
      assert Prefixed(xs[1..]) == "";
    }
  }

  lemma {:induction false} GatherPrefixed(entries: seq<Entry>, c: Cut)
    ensures Gather(entries, c) == Prefixed(Cleaned(InsideEntries(entries, c)))
  {
    if |entries| > 0 {
      GatherPrefixed(entries[1..], c);
      var e := entries[0];
      var rest := InsideEntries(entries[1..], c);
      if Inside(e, c) {
        assert Gather(entries, c) == (" " + CleanSubtitleText(e.text)) + Gather(entries[1..], c);
        assert InsideEntries(entries, c) == [e] + rest;
        PrefixedCleanedCons(e, rest);
      } else {
        assert Gather(entries, c) == "" + Gather(entries[1..], c);
        assert InsideEntries(entries, c) == [] + rest;
        assert [] + rest == rest && "" + Gather(entries[1..], c) == Gather(entries[1..], c);
      }
    }
  }

  lemma PrefixedCleanedCons(e: Entry, es: seq<Entry>)
    ensures Prefixed(Cleaned([e] + es)) == (" " + CleanSubtitleText(e.text)) + Prefixed(Cleaned(es))
  {
    var xs := Cleaned([e] + es);
    CleanedCons(e, es);
    assert xs[0] == CleanSubtitleText(e.text) && xs[1..] == Cleaned(es);
    assert Prefixed(xs) == " " + xs[0] + Prefixed(xs[1..]);
  }

  lemma CleanedCons(e: Entry, es: seq<Entry>)
    ensures Cleaned([e] + es) == [CleanSubtitleText(e.text)] + Cleaned(es)
  {
    assert ([e] + es)[1..] == es;
  }

  /** The transcript is the cleaned texts of exactly the entries wholly
      inside the cut, in order, joined by single spaces and trimmed. */
  lemma TranscriptJoinsInsideEntries(entries: seq<Entry>, c: Cut)
    ensures Transcript(entries, c) == TrimSpace(Join(Cleaned(InsideEntries(entries, c)), " "))
    ensures forall e :: e in InsideEntries(entries, c) <==> e in entries && Inside(e, c)
  {
    var xs := Cleaned(InsideEntries(entries, c));
    GatherPrefixed(entries, c);
    InsideEntriesMembers(entries, c);
    if |xs| > 0 {
      PrefixedJoin(xs);
      TrimSpaceSkipsLeadingSpace(' ', Join(xs, " "));
    }
  }

  /** Every entry in the transcript is also among the cut's captions: an
      entry inside the cut overlaps it. */
  lemma InsideOverlaps(e: Entry, c: Cut)
    requires e.start <= e.end
    requires Inside(e, c)
    ensures Overlaps(e, c.begin, c.end)
  {
  }

  /** The converse fails: an entry that straddles the cut's start is
      captioned but left out of the transcript. */
  lemma StraddlingEntryOnlyCaptioned(text: string)
    ensures var e := Entry(1, 5 * MsPerSecond, 15 * MsPerSecond, text);
      var c := Cut("t", 10, 20);
      Overlaps(e, c.begin, c.end) && !Inside(e, c)
  {
  }

  // ---------------------------------------------------------------------------
  // One cut

  /** What happens to one cut: skipped by the guard, a failed clip, a clip
      kept without captions because the caption file could not be read or
      its caption file could not be written, or a captioned clip with its
      SubRip captions and its transcript. */
  datatype CutOutcome =
    | OutOfRange
    | ClipFailed
    | Uncaptioned
    | CaptionWriteFailed
    | Captioned(captions: string, transcript: string)

  /** One cut: skipped by the guard; else a failed clip is dropped; else an
      unreadable caption file or a failed caption write keeps the clip
      without captions; else the clip is captioned. */
  function ProcessCut(durationMs: int, c: Cut, clipOk: bool, captions: Option<seq<Entry>>, writeOk: bool): (r: CutOutcome)
    ensures r.OutOfRange? <==> !CutFits(durationMs, c)
    ensures r.ClipFailed? <==> CutFits(durationMs, c) && !clipOk
    ensures r.Uncaptioned? <==> CutFits(durationMs, c) && clipOk && captions.None?
    ensures r.CaptionWriteFailed? <==> CutFits(durationMs, c) && clipOk && captions.Some? && !writeOk
    ensures r.Captioned? <==> CutFits(durationMs, c) && clipOk && captions.Some? && writeOk
  {
    if !CutFits(durationMs, c) then OutOfRange
    else if !clipOk then ClipFailed
    else match captions
      case None => Uncaptioned
      case Some(entries) =>
        if !writeOk then CaptionWriteFailed
        else Captioned(GetSubtitlesForTimeRange(entries, c.begin, c.end), Transcript(entries, c))
  }

  /** A captioned cut carries the captions overlapping `[begin, end]` and
      the transcript of the entries inside it; the captions are empty only
      when no entry overlaps the cut. */
  lemma CaptionedCut(durationMs: int, c: Cut, entries: seq<Entry>)
    requires CutFits(durationMs, c)
    ensures var r := ProcessCut(durationMs, c, true, Some(entries), true);
      && r.Captioned?
      && r.transcript == TrimSpace(Join(Cleaned(InsideEntries(entries, c)), " "))
      && (r.captions == "" <==> forall e :: e in entries ==> !Overlaps(e, c.begin, c.end))
  {
    assert ProcessCut(durationMs, c, true, Some(entries), true)
        == Captioned(GetSubtitlesForTimeRange(entries, c.begin, c.end), Transcript(entries, c));
    TranscriptJoinsInsideEntries(entries, c);
    EmptyIffNoOverlap(entries, c.begin, c.end);
  }

  /** A cut of part `k` of a split video. The guard uses the part's own
      duration and `begin` and `end` are seconds into the part, but the
      captions come from the whole video's caption file, selected with those
      same seconds, so the part number plays no role. */
  function PartCut(k: nat, partDurationMs: int, c: Cut, clipOk: bool, wholeCaptions: Option<seq<Entry>>,
                   writeOk: bool): CutOutcome {
    ProcessCut(partDurationMs, c, clipOk, wholeCaptions, writeOk)
  }

  /** Every part's cut `[begin, end]` is captioned from the first `begin`
      to `end` seconds of the whole video, whichever part it belongs to. */
  lemma PartCutCaptionsIgnorePart(k: nat, partDurationMs: int, c: Cut, whole: seq<Entry>)
    requires CutFits(partDurationMs, c)
    ensures var r := PartCut(k, partDurationMs, c, true, Some(whole), true);
      && r == PartCut(0, partDurationMs, c, true, Some(whole), true)
      && r.Captioned?
      && r.captions == GetSubtitlesForTimeRange(whole, c.begin, c.end)
  {
  }

  /** So a cut of a later part misses its own captions: in the second part,
      a cut at 10-15 s covers 1210-1215 s of the video, but an entry there
      is not captioned, while an entry at 10-15 s of the video is. */
  lemma LaterPartCutMissesItsCaptions(partDurationMs: int)
    requires partDurationMs >= 15 * MsPerSecond
    ensures var own := Entry(1, (Segments.PartStart(1) + 10) * MsPerSecond, (Segments.PartStart(1) + 15) * MsPerSecond, "own");
      var early := Entry(2, 10 * MsPerSecond, 15 * MsPerSecond, "early");
      var c := Cut("t", 10, 15);
      && Overlaps(own, Segments.PartStart(1) + c.begin, Segments.PartStart(1) + c.end)
      && PartCut(1, partDurationMs, c, true, Some([own]), true) == Captioned("", "")
      && PartCut(1, partDurationMs, c, true, Some([early]), true).captions != ""
  {
    var own := Entry(1, (Segments.PartStart(1) + 10) * MsPerSecond, (Segments.PartStart(1) + 15) * MsPerSecond, "own");
    var early := Entry(2, 10 * MsPerSecond, 15 * MsPerSecond, "early");
    var c := Cut("t", 10, 15);
    EmptyIffNoOverlap([own], 10, 15);
    EmptyIffNoOverlap([early], 10, 15);
    assert !Overlaps(own, 10, 15);
    assert Overlaps(early, 10, 15) && early in [early];
    assert Transcript([own], c) == "" by {
      assert !Inside(own, c);
      assert Gather([own], c) == "" + Gather([], c);
    }
  }

  // ---------------------------------------------------------------------------
  // The cover title

  /** Concatenation of word groups. */
  function Flatten(gs: seq<seq<string>>): seq<string> {
    if |gs| == 0 then [] else gs[0] + Flatten(gs[1..])
  }

  /** The words in groups of three, the last group holding what is left. */
  function Groups(words: seq<string>): (gs: seq<seq<string>>)
    ensures Flatten(gs) == words
    ensures forall k :: 0 <= k < |gs| ==> 1 <= |gs[k]| <= 3
    ensures forall k :: 0 <= k < |gs| - 1 ==> |gs[k]| == 3
    ensures forall k, j :: 0 <= k < |gs| && 0 <= j < |gs[k]| ==> gs[k][j] in words
    decreases |words|
  {
    if |words| == 0 then []
    else
      var e := if |words| < 3 then |words| else 3;
      var rest := Groups(words[e..]);
      var gs := [words[..e]] + rest;
      assert gs[1..] == rest;
      assert words == words[..e] + words[e..];
      forall k, j | 0 <= k < |gs| && 0 <= j < |gs[k]| ensures gs[k][j] in words {
        if k > 0 {
          assert gs[k][j] in words[e..];
        }
      }
      gs
  }

  /** Each group's words joined by single spaces. */
  function Lines(gs: seq<seq<string>>): (ls: seq<string>)
    ensures |ls| == |gs|
    ensures forall k :: 0 <= k < |gs| ==> ls[k] == Join(gs[k], " ")
  {
    seq(|gs|, k requires 0 <= k < |gs| => Join(gs[k], " "))
  }

  /** The cover title: a title of more than three words becomes lines of
      three words; a shorter one is used as it is. */
  function WrapTitle(title: string): string {
    var words := Fields(title);
    if |words| > 3 then Join(Lines(Groups(words)), "\n") else title
  }

  predicate AllWords(words: seq<string>) {
    forall k :: 0 <= k < |words| ==> IsWord(words[k])
  }

  lemma {:induction false} FieldsOfLines(gs: seq<seq<string>>, tail: string)
    requires forall k :: 0 <= k < |gs| ==> AllWords(gs[k])
    requires |tail| == 0 || IsSpace(tail[0])
    ensures Fields(Join(Lines(gs), "\n") + tail) == Flatten(gs) + Fields(tail)
  {
    if |gs| == 0 {
      assert Join(Lines(gs), "\n") + tail == tail;
    } else if |gs| == 1 {
      FieldsOfJoin(gs[0], " ", tail);
      assert Flatten(gs) == gs[0] + [];
    } else {
      FieldsOfLines(gs[1..], tail);
      FieldsOfLinesStep(gs, tail);
    }
  }

  /** One line more: its words come first. */
  lemma FieldsOfLinesStep(gs: seq<seq<string>>, tail: string)
    requires |gs| >= 2
    requires AllWords(gs[0])
    requires Fields(Join(Lines(gs[1..]), "\n") + tail) == Flatten(gs[1..]) + Fields(tail)
    ensures Fields(Join(Lines(gs), "\n") + tail) == Flatten(gs) + Fields(tail)
  {
    var r := Join(Lines(gs[1..]), "\n") + tail;
    JoinLinesCons(gs);
    assert Join(Lines(gs), "\n") + tail == Join(gs[0], " ") + ("\n" + r);
    LineBeforeWords(gs[0], Join(Lines(gs), "\n") + tail, r, Flatten(gs[1..]), Fields(tail));
    assert Flatten(gs) == gs[0] + Flatten(gs[1..]);
  }

  lemma LineBeforeWords(g: seq<string>, whole: string, r: string, rest: seq<string>, ft: seq<string>)
    requires AllWords(g)
    requires whole == Join(g, " ") + ("\n" + r)
    requires Fields(r) == rest + ft
    ensures Fields(whole) == (g + rest) + ft
  {
    LineThenRest(g, r);
    AppendAssoc(g, rest, ft);
  }

  lemma AppendAssoc(a: seq<string>, b: seq<string>, c: seq<string>)
    ensures a + (b + c) == (a + b) + c
  {
  }

  lemma LineThenRest(g: seq<string>, r: string)
    requires AllWords(g)
    ensures Fields(Join(g, " ") + ("\n" + r)) == g + Fields(r)
  {
    FieldsOfJoin(g, " ", "\n" + r);
    FieldsSkipSpace("\n", r);
  }

  lemma JoinLinesCons(gs: seq<seq<string>>)
    requires |gs| >= 2
    ensures Join(Lines(gs), "\n") == Join(gs[0], " ") + "\n" + Join(Lines(gs[1..]), "\n")
  {
    assert Lines(gs)[1..] == Lines(gs[1..]);
  }

  lemma GroupsOfWords(words: seq<string>)
    requires AllWords(words)
    ensures forall k :: 0 <= k < |Groups(words)| ==> AllWords(Groups(words)[k])
  {
    var gs := Groups(words);
    forall k | 0 <= k < |gs| ensures AllWords(gs[k]) {
      forall j | 0 <= j < |gs[k]| ensures IsWord(gs[k][j]) {
        var i :| 0 <= i < |words| && words[i] == gs[k][j];
      }
    }
  }

  /** Wrapping never changes the title's words or their order. */
  lemma WrapTitleKeepsWords(title: string)
    ensures Fields(WrapTitle(title)) == Fields(title)
  {
    var words := Fields(title);
    if |words| > 3 {
      GroupsOfWords(words);
      FieldsOfLines(Groups(words), "");
      assert Join(Lines(Groups(words)), "\n") + "" == Join(Lines(Groups(words)), "\n");
      assert Flatten(Groups(words)) + [] == words;
    }
  }

  /** A title of at most three words is used as it is. */
  lemma ShortTitleVerbatim(title: string)
    requires |Fields(title)| <= 3
    ensures WrapTitle(title) == title
  {
  }

  /** Joined words hold no line break. */
  lemma {:induction false} NoBreakInJoin(words: seq<string>)
    requires AllWords(words)
    ensures '\n' !in Join(words, " ")
  {
    if |words| > 1 {
      NoBreakInJoin(words[1..]);
      assert '\n' !in words[0] by {
        assert IsWord(words[0]);
      }
    } else if |words| == 1 {
      assert IsWord(words[0]);
    }
  }

  /** The fields of each line. */
  function FieldsOfEach(lines: seq<string>): (r: seq<seq<string>>)
    ensures |r| == |lines|
    ensures forall k :: 0 <= k < |lines| ==> r[k] == Fields(lines[k])
  {
    seq(|lines|, k requires 0 <= k < |lines| => Fields(lines[k]))
  }

  /** A longer title becomes lines of exactly three words each, except the
      last, which has one to three; the lines' words, in order, are the
      title's words. */
  lemma WrapTitleLines(title: string)
    requires |Fields(title)| > 3
    ensures var lines := Split(WrapTitle(title), "\n");
      && |lines| == (|Fields(title)| + 2) / 3
      && (forall k :: 0 <= k < |lines| - 1 ==> |Fields(lines[k])| == 3)
      && 1 <= |Fields(lines[|lines| - 1])| <= 3
      && Flatten(FieldsOfEach(lines)) == Fields(title)
  {
    WrappedLines(title);
    LinesShape(Fields(title));
  }

  /** The lines of a non-empty list of words: one per three words, each
      with three words but the last, and together the words in order. */
  lemma LinesShape(words: seq<string>)
    requires |words| > 0 && AllWords(words)
    ensures var ls := Lines(Groups(words));
      && |ls| == (|words| + 2) / 3
      && (forall k :: 0 <= k < |ls| - 1 ==> |Fields(ls[k])| == 3)
      && 1 <= |Fields(ls[|ls| - 1])| <= 3
      && Flatten(FieldsOfEach(ls)) == words
  {
    var gs := Groups(words);
    GroupsOfWords(words);
    LinesOfWords(gs);
    GroupsCount(words);
    assert FieldsOfEach(Lines(gs)) == gs;
  }

  /** Split at line breaks, the wrapped title gives back the joined groups. */
  lemma WrappedLines(title: string)
    requires |Fields(title)| > 3
    ensures Split(WrapTitle(title), "\n") == Lines(Groups(Fields(title)))
  {
    var words := Fields(title);
    var gs := Groups(words);
    GroupsOfWords(words);
    LinesOfWords(gs);
    SplitJoinChar(Lines(gs), '\n');
  }

  /** Each line holds no line break, and its fields are its group. */
  lemma LinesOfWords(gs: seq<seq<string>>)
    requires forall k :: 0 <= k < |gs| ==> AllWords(gs[k])
    ensures forall k :: 0 <= k < |gs| ==> '\n' !in Lines(gs)[k] && Fields(Lines(gs)[k]) == gs[k]
  {
    forall k | 0 <= k < |gs| ensures '\n' !in Lines(gs)[k] && Fields(Lines(gs)[k]) == gs[k] {
      LineOfWords(gs[k]);
    }
  }

  lemma LineOfWords(g: seq<string>)
    requires AllWords(g)
    ensures '\n' !in Join(g, " ") && Fields(Join(g, " ")) == g
  {
    NoBreakInJoin(g);
    FieldsOfJoin(g, " ", "");
    assert Join(g, " ") + "" == Join(g, " ");
    assert g + [] == g;
  }

  lemma {:induction false} GroupsCount(words: seq<string>)
    ensures |Groups(words)| == (|words| + 2) / 3
    decreases |words|
  {
    if |words| > 0 {
      var e := if |words| < 3 then |words| else 3;
      GroupsCount(words[e..]);
    }
  }
}
