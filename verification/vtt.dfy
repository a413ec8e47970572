/** `parseVTTFile`: reading a WebVTT caption file into numbered entries. The
    reader is a state machine over the file's lines; `Cues` is an independent
    description of its result (group each cue line with the text lines that
    follow it), and `ParseLinesGroupsCues` proves the two agree. */
module Vtt {
  import opened Text
  import opened Timestamp

  /** `SubtitleEntry`; times are milliseconds. */
  datatype Entry = Entry(index: int, start: int, end: int, text: string)

  /** Lines the reader passes over once trimmed: blank lines, the `WEBVTT`
      header and `NOTE` blocks' first lines. */
  predicate Skipped(line: string) {
    line == "" || line == "WEBVTT" || HasPrefix(line, "NOTE")
  }

  /** A cue timing line such as `00:00:01.000 --> 00:00:04.000`. */
  predicate IsCue(line: string) {
    Contains(line, "-->")
  }

  /** The start and end of a cue timing line: both sides of the arrow read as
      timestamps when the line holds exactly one arrow, zeros otherwise. */
  function CueTimes(line: string): (nat, nat) {
    var sides := Split(line, "-->");
    if |sides| == 2 then (ParseTimestamp(TrimSpace(sides[0])), ParseTimestamp(TrimSpace(sides[1])))
    else (0, 0)
  }

  // ---------------------------------------------------------------------------
  // The reader, as the source runs it

  /** The loop variables of `parseVTTFile`. */
  datatype Reader = Reader(entries: seq<Entry>, current: Entry, inEntry: bool, index: int)

  const Start: Reader := Reader([], Entry(0, 0, 0, ""), false, 0)

  /** A text line joins the cue's text after a space, unless it is the first. */
  function AppendText(text: string, line: string): string {
    (if text != "" then text + " " else text) + line
  }

  /** One trimmed, non-skipped line: a cue line closes the open entry and
      opens the next; a text line extends the open entry; a text line before
      the first cue is dropped. */
  function Apply(r: Reader, line: string): Reader {
    if IsCue(line) then
      var entries := if r.inEntry then r.entries + [r.current] else r.entries;
      var times := CueTimes(line);
      Reader(entries, Entry(r.index + 1, times.0, times.1, ""), true, r.index + 1)
    else if r.inEntry then
      r.(current := r.current.(text := AppendText(r.current.text, line)))
    else r
  }

  function Step(r: Reader, raw: string): Reader {
    var line := TrimSpace(raw);
    if Skipped(line) then r else Apply(r, line)
  }

  function Feed(r: Reader, lines: seq<string>): Reader
    decreases |lines|
  {
    if |lines| == 0 then r else Feed(Step(r, lines[0]), lines[1..])
  }

  /** After the last line, the open entry is kept. */
  function Finish(r: Reader): seq<Entry> {
    if r.inEntry then r.entries + [r.current] else r.entries
  }

  function ParseLines(lines: seq<string>): seq<Entry> {
    Finish(Feed(Start, lines))
  }

  /** `parseVTTFile` once the file has been read (reading it is left out). */
  function ParseVtt(content: string): seq<Entry> {
    ParseLines(Split(content, "\n"))
  }

  // ---------------------------------------------------------------------------
  // The reference description

  /** The trimmed lines the reader acts on, in order. */
  function Significant(lines: seq<string>): (r: seq<string>)
    ensures NoBlank(r)
  {
    if |lines| == 0 then []
    else
      var line := TrimSpace(lines[0]);
      (if Skipped(line) then [] else [line]) + Significant(lines[1..])
  }

  /** No line is blank; trimmed, non-skipped lines never are. */
  predicate NoBlank(ls: seq<string>) {
    forall k :: 0 <= k < |ls| ==> ls[k] != ""
  }

  predicate StartsAtCue(ls: seq<string>) {
    |ls| == 0 || IsCue(ls[0])
  }

  /** The number of text lines before the next cue line. */
  function BodyLength(ls: seq<string>): (n: nat)
    ensures n <= |ls|
    ensures forall k :: 0 <= k < n ==> !IsCue(ls[k])
    ensures n == |ls| || IsCue(ls[n])
  {
    if |ls| == 0 || IsCue(ls[0]) then 0 else 1 + BodyLength(ls[1..])
  }

  function CueCount(ls: seq<string>): nat {
    if |ls| == 0 then 0 else (if IsCue(ls[0]) then 1 else 0) + CueCount(ls[1..])
  }

  /** Lines that start at a cue line, grouped into entries numbered from
      `first`: one entry per cue line, whose text is the following text lines
      joined with single spaces. */
  function Group(ls: seq<string>, first: int): (r: seq<Entry>)
    requires |ls| == 0 || IsCue(ls[0])
    ensures |r| == CueCount(ls)
    ensures forall k :: 0 <= k < |r| ==> r[k].index == first + k
    decreases |ls|
  {
    if |ls| == 0 then []
    else
      var n := BodyLength(ls[1..]);
      var times := CueTimes(ls[0]);
      SkipBody(ls, n);
      [Entry(first, times.0, times.1, Join(ls[1..1 + n], " "))] + Group(ls[1 + n..], first + 1)
  }

  /** After a cue line and its text lines comes a cue line, and the cue
      line counted is the only one skipped. */
  lemma SkipBody(ls: seq<string>, n: nat)
    requires |ls| > 0 && IsCue(ls[0])
    requires n == BodyLength(ls[1..])
    ensures 1 + n <= |ls|
    ensures |ls[1 + n..]| == 0 || IsCue(ls[1 + n..][0])
    ensures CueCount(ls) == 1 + CueCount(ls[1 + n..])
  {
    assert ls[1..][n..] == ls[1 + n..];
    CueCountSkipsBody(ls[1..], n);
  }

  /** Text lines hold no cue, so skipping them keeps the cue count. */
  lemma {:induction false} CueCountSkipsBody(ls: seq<string>, n: nat)
    requires n <= |ls|
    requires forall k :: 0 <= k < n ==> !IsCue(ls[k])
    ensures CueCount(ls[n..]) == CueCount(ls)
    decreases n
  {
    if n > 0 {
      CueCountSkipsBody(ls[1..], n - 1);
      assert ls[1..][n - 1..] == ls[n..];
    }
  }

  /** The entries of a caption file: the significant lines from the first
      cue line on, grouped and numbered from 1. */
  function Cues(lines: seq<string>): seq<Entry> {
    Group(FromFirstCue(lines), 1)
  }

  /** The significant lines from the first cue line on. */
  function FromFirstCue(lines: seq<string>): (ls: seq<string>)
    ensures StartsAtCue(ls) && NoBlank(ls)
  {
    var s := Significant(lines);
    SignificantFromFirstCue(s);
    s[BodyLength(s)..]
  }

  // ---------------------------------------------------------------------------
  // The reader meets the reference

  function FeedSignificant(r: Reader, ls: seq<string>): Reader
    decreases |ls|
  {
    if |ls| == 0 then r else FeedSignificant(Apply(r, ls[0]), ls[1..])
  }

  function AppendAll(text: string, body: seq<string>): string
    decreases |body|
  {
    if |body| == 0 then text else AppendAll(AppendText(text, body[0]), body[1..])
  }

  /** Skipped lines leave the reader as it is. */
  lemma {:induction false} FeedSkipsLines(r: Reader, lines: seq<string>)
    ensures Feed(r, lines) == FeedSignificant(r, Significant(lines))
    decreases |lines|
  {
    if |lines| > 0 {
      var line := TrimSpace(lines[0]);
      var rest := Significant(lines[1..]);
      FeedSkipsLines(Step(r, lines[0]), lines[1..]);
      if !Skipped(line) {
        assert ([line] + rest)[1..] == rest;
      } else {
        assert [] + rest == rest;
      }
    }
  }

  /** Text before the first cue line is dropped. */
  lemma {:induction false} PreambleDropped(r: Reader, ls: seq<string>)
    requires !r.inEntry
    ensures FeedSignificant(r, ls) == FeedSignificant(r, ls[BodyLength(ls)..])
    decreases |ls|
  {
    if |ls| > 0 && !IsCue(ls[0]) {
      PreambleDropped(r, ls[1..]);
      assert ls[1..][BodyLength(ls[1..])..] == ls[BodyLength(ls)..];
    }
  }

  /** While an entry is open, text lines accumulate into its text. */
  lemma {:induction false} BodyAccumulates(r: Reader, ls: seq<string>, n: nat)
    requires r.inEntry
    requires n <= |ls|
    requires forall k :: 0 <= k < n ==> !IsCue(ls[k])
    ensures FeedSignificant(r, ls)
         == FeedSignificant(r.(current := r.current.(text := AppendAll(r.current.text, ls[..n]))), ls[n..])
    decreases n
  {
    if n == 0 {
      assert ls[..0] == [];
      assert ls[0..] == ls;
    } else {
      var r1 := Apply(r, ls[0]);
      assert r1 == r.(current := r.current.(text := AppendText(r.current.text, ls[0])));
      BodyAccumulates(r1, ls[1..], n - 1);
      assert ls[..n][0] == ls[0];
      assert ls[..n][1..] == ls[1..][..n - 1];
      assert ls[1..][n - 1..] == ls[n..];
    }
  }

  lemma {:induction false} JoinSnoc(parts: seq<string>, x: string, sep: string)
    requires |parts| > 0
    ensures Join(parts + [x], sep) == Join(parts, sep) + sep + x
    decreases |parts|
  {
    if |parts| == 1 {
      assert (parts + [x])[1..] == [x];
    } else {
      JoinSnoc(parts[1..], x, sep);
      assert (parts + [x])[1..] == parts[1..] + [x];
    }
  }

  lemma JoinNonEmpty(parts: seq<string>, sep: string)
    requires |parts| > 0 && parts[0] != ""
    ensures Join(parts, sep) != ""
  {
  }

  /** Appending non-empty lines one by one is joining them with spaces. */
  lemma {:induction false} AppendAllJoins(acc: seq<string>, rest: seq<string>)
    requires forall k :: 0 <= k < |acc| ==> acc[k] != ""
    requires forall k :: 0 <= k < |rest| ==> rest[k] != ""
    ensures AppendAll(Join(acc, " "), rest) == Join(acc + rest, " ")
    decreases |rest|
  {
    if |rest| == 0 {
      assert acc + rest == acc;
    } else {
      var x := rest[0];
      if |acc| == 0 {
        assert AppendText(Join(acc, " "), x) == Join(acc + [x], " ");
      } else {
        JoinNonEmpty(acc, " ");
        JoinSnoc(acc, x, " ");
      }
      AppendAllJoins(acc + [x], rest[1..]);
      assert (acc + [x]) + rest[1..] == acc + rest;
    }
  }

  /** A freshly opened entry collects the text lines up to the next cue line,
      joined with spaces. */
  lemma EntryCollectsBody(r: Reader, ls: seq<string>)
    requires r.inEntry && r.current.text == ""
    requires NoBlank(ls)
    ensures FeedSignificant(r, ls)
         == FeedSignificant(r.(current := r.current.(text := Join(ls[..BodyLength(ls)], " "))), ls[BodyLength(ls)..])
  {
    var n := BodyLength(ls);
    BodyAccumulates(r, ls, n);
    AppendAllJoins([], ls[..n]);
    assert [] + ls[..n] == ls[..n];
    assert Join([], " ") == "";
  }

  /** A cue line closes the open entry, if any, and opens the next one. */
  lemma CueOpensEntry(r: Reader, line: string)
    requires IsCue(line)
    ensures Apply(r, line) == Reader(Finish(r), Entry(r.index + 1, CueTimes(line).0, CueTimes(line).1, ""), true, r.index + 1)
  {
  }

  lemma GroupFirst(ls: seq<string>, first: int)
    requires |ls| > 0 && IsCue(ls[0])
    ensures Group(ls, first)
         == [Entry(first, CueTimes(ls[0]).0, CueTimes(ls[0]).1, Join(ls[1..1 + BodyLength(ls[1..])], " "))]
            + Group(ls[1 + BodyLength(ls[1..])..], first + 1)
  {
  }

  /** Reading a cue line and its text lines leaves the reader with that entry
      open and complete. */
  lemma CueAndBody(r: Reader, ls: seq<string>, n: nat)
    requires |ls| > 0 && IsCue(ls[0])
    requires NoBlank(ls)
    requires n == BodyLength(ls[1..])
    ensures FeedSignificant(r, ls)
         == FeedSignificant(
              Reader(Finish(r), Entry(r.index + 1, CueTimes(ls[0]).0, CueTimes(ls[0]).1, Join(ls[1..1 + n], " ")), true, r.index + 1),
              ls[1 + n..])
  {
    var r1 := Apply(r, ls[0]);
    CueOpensEntry(r, ls[0]);
    EntryCollectsBody(r1, ls[1..]);
    assert ls[1..][..n] == ls[1..1 + n];
    assert ls[1..][n..] == ls[1 + n..];
  }

  /** After a cue line and its text lines, the rest starts at a cue line. */
  lemma RestOfGroup(ls: seq<string>, n: nat)
    requires |ls| > 0
    requires NoBlank(ls)
    requires n == BodyLength(ls[1..])
    ensures StartsAtCue(ls[1 + n..]) && NoBlank(ls[1 + n..])
  {
    var rest := ls[1 + n..];
    forall k | 0 <= k < |rest| ensures rest[k] != "" {
      assert rest[k] == ls[1 + n + k];
    }
    if |rest| > 0 {
      assert rest[0] == ls[1..][n];
    }
  }

  /** From a cue line on, the reader produces the reference grouping. */
  lemma {:induction false} ReaderGroups(r: Reader, ls: seq<string>)
    requires StartsAtCue(ls)
    requires NoBlank(ls)
    ensures Finish(FeedSignificant(r, ls)) == Finish(r) + Group(ls, r.index + 1)
    decreases |ls|
  {
    if |ls| > 0 {
      var n, r2 := ReaderGroupsStep(r, ls);
      ReaderGroups(r2, ls[1 + n..]);
    }
  }

  /** One cue line and its text lines: the reader moves on to `r2`, and
      what `r2` still has to add from the rest completes the grouping. */
  lemma ReaderGroupsStep(r: Reader, ls: seq<string>) returns (n: nat, r2: Reader)
    requires |ls| > 0 && IsCue(ls[0])
    requires NoBlank(ls)
    ensures 1 + n <= |ls| && |ls[1 + n..]| < |ls|
    ensures StartsAtCue(ls[1 + n..]) && NoBlank(ls[1 + n..])
    ensures r2.index == r.index + 1
    ensures FeedSignificant(r, ls) == FeedSignificant(r2, ls[1 + n..])
    ensures Finish(r2) + Group(ls[1 + n..], r2.index + 1) == Finish(r) + Group(ls, r.index + 1)
  {
    n := BodyLength(ls[1..]);
    var e := Entry(r.index + 1, CueTimes(ls[0]).0, CueTimes(ls[0]).1, Join(ls[1..1 + n], " "));
    r2 := Reader(Finish(r), e, true, r.index + 1);
    RestOfGroup(ls, n);
    CueAndBody(r, ls, n);
    GroupFirst(ls, r.index + 1);
    assert Group(ls, r.index + 1) == [e] + Group(ls[1 + n..], r.index + 2);
    assert Finish(r2) == Finish(r) + [e];
    AppendAssocEntries(Finish(r), [e], Group(ls[1 + n..], r.index + 2));
  }

  lemma AppendAssocEntries(a: seq<Entry>, b: seq<Entry>, c: seq<Entry>)
    ensures (a + b) + c == a + (b + c)
  {
  }

  /** The reader's entries are the reference grouping of the file's lines:
      one entry per cue line, in file order, numbered from 1, each with the
      times read from its cue line and the text lines up to the next cue
      line joined with single spaces; blank lines, `WEBVTT`, `NOTE` lines and
      any text before the first cue line contribute nothing. */
  lemma ParseLinesGroupsCues(lines: seq<string>)
    ensures ParseLines(lines) == Cues(lines)
  {
    ReaderSkipsToFirstCue(lines);
    ReaderGroupsFromStart(FromFirstCue(lines));
  }

  lemma ReaderSkipsToFirstCue(lines: seq<string>)
    ensures ParseLines(lines) == Finish(FeedSignificant(Start, FromFirstCue(lines)))
  {
    FeedSkipsLines(Start, lines);
    PreambleDropped(Start, Significant(lines));
  }

  lemma ReaderGroupsFromStart(ls: seq<string>)
    requires StartsAtCue(ls) && NoBlank(ls)
    ensures Finish(FeedSignificant(Start, ls)) == Group(ls, 1)
  {
    ReaderGroups(Start, ls);
    StartEmpty();
    assert Finish(Start) + Group(ls, 1) == [] + Group(ls, 1);
  }

  lemma StartEmpty()
    ensures Finish(Start) == [] && Start.index + 1 == 1
  {
  }

  lemma SignificantFromFirstCue(s: seq<string>)
    requires NoBlank(s)
    ensures StartsAtCue(s[BodyLength(s)..]) && NoBlank(s[BodyLength(s)..])
  {
    var b := BodyLength(s);
    var rest := s[b..];
    forall k | 0 <= k < |rest| ensures rest[k] != "" {
      assert rest[k] == s[b + k];
    }
  }

  /** Entries are numbered 1, 2, 3, ... and there is one per cue line. */
  lemma ParseLinesNumbering(lines: seq<string>)
    ensures |ParseLines(lines)| == CueCount(Significant(lines))
    ensures forall k :: 0 <= k < |ParseLines(lines)| ==> ParseLines(lines)[k].index == k + 1
  {
    ParseLinesGroupsCues(lines);
    var s := Significant(lines);
    CueCountSkipsBody(s, BodyLength(s));
  }

  // ---------------------------------------------------------------------------
  // Cue timing lines

  /** In `a + "-->" + b` with no arrow in `a`, the first arrow is the one
      after `a`: an earlier start would need `>` where the arrow's dashes are. */
  lemma FirstArrow(a: string, b: string)
    requires !Contains(a, "-->")
    ensures IndexOf(a + "-->" + b, "-->") == |a|
  {
    var s := a + "-->" + b;
    assert s[|a|..|a| + 3] == "-->";
    assert OccursAt(s, "-->", |a|);
    forall j | 0 <= j < |a| ensures !OccursAt(s, "-->", j) {
      if j + 3 <= |a| {
        assert s[j..j + 3] == a[j..j + 3];
        assert !OccursAt(a, "-->", j);
      } else {
        assert s[j + 2] == "-->"[j + 2 - |a|] == '-';
        assert s[j..j + 3][2] == s[j + 2];
      }
    }
  }

  /** A timing line with exactly one arrow splits into its two sides. */
  lemma SplitAtArrow(a: string, b: string)
    requires !Contains(a, "-->") && !Contains(b, "-->")
    ensures Split(a + "-->" + b, "-->") == [a, b]
  {
    var s := a + "-->" + b;
    FirstArrow(a, b);
    assert s[..|a|] == a;
    assert s[|a| + 3..] == b;
  }

  /** The times of a cue line with one arrow are the timestamps on either
      side, read after trimming. */
  lemma CueTimesOfTimingLine(a: string, b: string)
    requires !Contains(a, "-->") && !Contains(b, "-->")
    ensures CueTimes(a + "-->" + b) == (ParseTimestamp(TrimSpace(a)), ParseTimestamp(TrimSpace(b)))
  {
    SplitAtArrow(a, b);
  }

  /** A line with two or more arrows is still a cue line, but its times are
      left at zero. */
  lemma CueTimesManyArrows(a: string, b: string, c: string)
    requires !Contains(a, "-->") && !Contains(b, "-->")
    ensures CueTimes(a + "-->" + b + "-->" + c) == (0, 0)
  {
    var s := a + "-->" + b + "-->" + c;
    assert s == a + "-->" + (b + "-->" + c);
    FirstArrow(a, b + "-->" + c);
    assert s[..|a|] == a;
    assert s[|a| + 3..] == b + "-->" + c;
    FirstArrow(b, c);
    assert |Split(s, "-->")| == 1 + |Split(b + "-->" + c, "-->")|;
  }
}
