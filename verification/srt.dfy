/** `getSubtitlesForTimeRange`: the caption entries that overlap a time
    window, retimed relative to the window's start, renumbered from 1 and
    rendered as SubRip blocks. */
module Srt {
  import opened Text
  import opened Timestamp
  import opened Markup
  import opened Vtt

  /** An entry overlaps the window `[windowStart, windowEnd]` (whole seconds,
      both ends inclusive) when it starts no later than the window ends and
      ends no earlier than the window starts. */
  predicate Overlaps(e: Entry, windowStart: int, windowEnd: int) {
    e.start <= windowEnd * MsPerSecond && e.end >= windowStart * MsPerSecond
  }

  /** An entry's start in whole seconds after the window start, never
      negative: the source takes the larger of 0 and the difference in
      seconds and truncates it to an integer. */
  function AdjustedStart(startMs: int, windowStart: int): (s: int)
    ensures s >= 0
    ensures s * MsPerSecond <= startMs - windowStart * MsPerSecond || s == 0
    ensures startMs - windowStart * MsPerSecond < (s + 1) * MsPerSecond
  {
    var offset := startMs - windowStart * MsPerSecond;
    if offset <= 0 then 0 else offset / MsPerSecond
  }

  /** An entry's end in whole seconds after the window start, never past the
      window's length: the smaller of the window's length and the difference
      in seconds, truncated toward zero. The three clauses together fix it
      as that minimum. */
  function AdjustedEnd(endMs: int, windowStart: int, windowEnd: int): (s: int)
    ensures s <= windowEnd - windowStart
    ensures s <= GoDiv(endMs - windowStart * MsPerSecond, MsPerSecond)
    ensures s == windowEnd - windowStart || s == GoDiv(endMs - windowStart * MsPerSecond, MsPerSecond)
  {
    var offset := endMs - windowStart * MsPerSecond;
    if (windowEnd - windowStart) * MsPerSecond <= offset then windowEnd - windowStart
    else GoDiv(offset, MsPerSecond)
  }

  /** One SubRip block; times are whole seconds. */
  datatype Block = Block(index: int, start: int, end: int, text: string)

  function Retime(e: Entry, windowStart: int, windowEnd: int, index: int): Block {
    Block(index, AdjustedStart(e.start, windowStart), AdjustedEnd(e.end, windowStart, windowEnd),
          CleanSubtitleText(e.text))
  }

  /** The reference selection: the overlapping entries, in order. */
  function Overlapping(entries: seq<Entry>, windowStart: int, windowEnd: int): seq<Entry> {
    if |entries| == 0 then []
    else
      (if Overlaps(entries[0], windowStart, windowEnd) then [entries[0]] else [])
        + Overlapping(entries[1..], windowStart, windowEnd)
  }

  /** The reference selection holds exactly the overlapping entries. */
  lemma {:induction false} OverlappingMembers(entries: seq<Entry>, windowStart: int, windowEnd: int)
    ensures forall e :: e in Overlapping(entries, windowStart, windowEnd)
                    <==> e in entries && Overlaps(e, windowStart, windowEnd)
  {
    if |entries| > 0 {
      OverlappingMembers(entries[1..], windowStart, windowEnd);
      assert entries == [entries[0]] + entries[1..];
    }
  }

  /** The reference numbering: the given entries retimed and numbered
      `next`, `next + 1`, ... */
  function RetimeAll(es: seq<Entry>, windowStart: int, windowEnd: int, next: int): (blocks: seq<Block>)
    ensures |blocks| == |es|
    ensures forall k :: 0 <= k < |blocks| ==> blocks[k].index == next + k
  {
    if |es| == 0 then []
    else [Retime(es[0], windowStart, windowEnd, next)] + RetimeAll(es[1..], windowStart, windowEnd, next + 1)
  }

  /** The loop of `getSubtitlesForTimeRange`: each overlapping entry, in
      order, becomes the block numbered `next`, `next + 1`, ...; the loop's
      single pass is the reference filter followed by the reference
      numbering. */
  function SelectFrom(entries: seq<Entry>, windowStart: int, windowEnd: int, next: int): (blocks: seq<Block>)
    ensures blocks == RetimeAll(Overlapping(entries, windowStart, windowEnd), windowStart, windowEnd, next)
  {
    if |entries| == 0 then []
    else
      var e := entries[0];
      var chosen := Overlapping(entries[1..], windowStart, windowEnd);
      if Overlaps(e, windowStart, windowEnd) then
        var rest := SelectFrom(entries[1..], windowStart, windowEnd, next + 1);
        assert Overlapping(entries, windowStart, windowEnd) == [e] + chosen;
        RetimeAllCons(e, chosen, windowStart, windowEnd, next);
        [Retime(e, windowStart, windowEnd, next)] + rest
      else
        var rest := SelectFrom(entries[1..], windowStart, windowEnd, next);
        assert Overlapping(entries, windowStart, windowEnd) == chosen by {
          assert [] + chosen == chosen;
        }
        rest
  }

  lemma RetimeAllCons(e: Entry, es: seq<Entry>, windowStart: int, windowEnd: int, next: int)
    ensures RetimeAll([e] + es, windowStart, windowEnd, next)
         == [Retime(e, windowStart, windowEnd, next)] + RetimeAll(es, windowStart, windowEnd, next + 1)
  {
    assert ([e] + es)[1..] == es;
  }

  function SelectWindow(entries: seq<Entry>, windowStart: int, windowEnd: int): seq<Block> {
    SelectFrom(entries, windowStart, windowEnd, 1)
  }

  /** `%d\n%s --> %s\n%s\n\n`. */
  function Render(b: Block): (r: string)
    ensures |r| > 0
  {
    Itoa(b.index) + "\n" + FormatSrtTimestamp(b.start) + " --> " + FormatSrtTimestamp(b.end) + "\n"
      + b.text + "\n\n"
  }

  function RenderAll(blocks: seq<Block>): (r: string)
    ensures |r| == 0 <==> |blocks| == 0
  {
    if |blocks| == 0 then "" else Render(blocks[0]) + RenderAll(blocks[1..])
  }

  /** `getSubtitlesForTimeRange`. */
  function GetSubtitlesForTimeRange(entries: seq<Entry>, windowStart: int, windowEnd: int): string {
    RenderAll(SelectWindow(entries, windowStart, windowEnd))
  }

  // ---------------------------------------------------------------------------
  // Properties

  /** The window's captions are empty exactly when no entry overlaps it. */
  lemma EmptyIffNoOverlap(entries: seq<Entry>, windowStart: int, windowEnd: int)
    ensures GetSubtitlesForTimeRange(entries, windowStart, windowEnd) == ""
        <==> forall e :: e in entries ==> !Overlaps(e, windowStart, windowEnd)
  {
    var chosen := Overlapping(entries, windowStart, windowEnd);
    OverlappingMembers(entries, windowStart, windowEnd);
    if |chosen| > 0 {
      assert chosen[0] in chosen;
    }
  }

  /** The blocks are numbered 1, 2, 3, ... and each is the retimed
      overlapping entry at the same position. */
  lemma SelectWindowNumbering(entries: seq<Entry>, windowStart: int, windowEnd: int)
    ensures var blocks := SelectWindow(entries, windowStart, windowEnd);
      forall k :: 0 <= k < |blocks| ==> blocks[k].index == k + 1
  {
  }

  /** Every block lies inside the window: it starts at or after 0 and ends
      at or before the window's length; for a well-formed entry (start no
      later than end) and window (start no later than end) the block's start
      is also no later than its end, and its end is not negative. */
  lemma BlockWithinWindow(e: Entry, windowStart: int, windowEnd: int, index: int)
    requires Overlaps(e, windowStart, windowEnd)
    ensures var b := Retime(e, windowStart, windowEnd, index);
      && 0 <= b.start
      && b.end <= windowEnd - windowStart
      && (e.start <= e.end && windowStart <= windowEnd ==> 0 <= b.end && b.start <= b.end)
  {
    var b := Retime(e, windowStart, windowEnd, index);
    if e.start <= e.end && windowStart <= windowEnd {
      var offsetStart := e.start - windowStart * MsPerSecond;
      var offsetEnd := e.end - windowStart * MsPerSecond;
      assert offsetEnd >= 0;
      assert GoDiv(offsetEnd, MsPerSecond) == offsetEnd / MsPerSecond;
      if offsetStart > 0 {
        assert offsetStart <= (windowEnd - windowStart) * MsPerSecond;
        DivMonotone(offsetStart, (windowEnd - windowStart) * MsPerSecond);
        DivMonotone(offsetStart, offsetEnd);
      }
    }
  }

  lemma DivMonotone(a: int, b: int)
    requires 0 <= a <= b
    ensures a / MsPerSecond <= b / MsPerSecond
  {
  }

  /** Entries `[10 s, 20 s]` and `[25 s, 35 s]` seen through the window from
      15 s to 30 s: the first is cut to `0..5`, the second to `10..15`. */
  lemma WindowExample(a: string, b: string)
    ensures SelectWindow([Entry(1, 10000, 20000, a), Entry(2, 25000, 35000, b)], 15, 30)
         == [Block(1, 0, 5, CleanSubtitleText(a)), Block(2, 10, 15, CleanSubtitleText(b))]
  {
    var e0 := Entry(1, 10000, 20000, a);
    var e1 := Entry(2, 25000, 35000, b);
    BothOverlap(e0, e1, 15, 30);
    RetimeAllCons(e0, [e1], 15, 30, 1);
    RetimeAllCons(e1, [], 15, 30, 2);
    assert [e1] == [e1] + [];
    ExampleTimes();
    assert SelectWindow([e0, e1], 15, 30) == RetimeAll([e0] + [e1], 15, 30, 1);
    assert RetimeAll([], 15, 30, 3) == [];
    assert Retime(e0, 15, 30, 1) == Block(1, 0, 5, CleanSubtitleText(a));
    assert Retime(e1, 15, 30, 2) == Block(2, 10, 15, CleanSubtitleText(b));
  }

  lemma BothOverlap(e0: Entry, e1: Entry, windowStart: int, windowEnd: int)
    requires Overlaps(e0, windowStart, windowEnd) && Overlaps(e1, windowStart, windowEnd)
    ensures Overlapping([e0, e1], windowStart, windowEnd) == [e0] + [e1]
  {
    assert [e0, e1][1..] == [e1];
    assert [e1][1..] == [];
    assert Overlapping([e1], windowStart, windowEnd) == [e1] + [];
    assert Overlapping([e0, e1], windowStart, windowEnd) == [e0] + Overlapping([e1], windowStart, windowEnd);
  }

  lemma ExampleTimes()
    ensures AdjustedStart(10000, 15) == 0 && AdjustedEnd(20000, 15, 30) == 5
    ensures AdjustedStart(25000, 15) == 10 && AdjustedEnd(35000, 15, 30) == 15
  {
  }
}
