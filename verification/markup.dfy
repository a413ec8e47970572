/** `cleanSubtitleText`: stripping the inline markup of auto-generated
    captions. Each regular-expression rewrite of the source is a single
    left-to-right scan that replaces non-overlapping matches. */
module Markup {
  import opened Text

  /** The rewrites, in the order they are applied. */
  datatype Pattern =
    | TimestampTag  // `<\d{2}:\d{2}:\d{2}\.\d{3}>`, removed
    | StyleTag      // `</?c>`, removed
    | DoubleSpace   // two spaces, replaced by one

  /** A per-word timing tag such as `<00:01:02.345>` starts `s`. */
  predicate StartsWithTimestampTag(s: string) {
    && |s| >= 14
    && s[0] == '<' && IsDigit(s[1]) && IsDigit(s[2]) && s[3] == ':'
    && IsDigit(s[4]) && IsDigit(s[5]) && s[6] == ':'
    && IsDigit(s[7]) && IsDigit(s[8]) && s[9] == '.'
    && IsDigit(s[10]) && IsDigit(s[11]) && IsDigit(s[12]) && s[13] == '>'
  }

  /** Length of the match of `p` that starts at the front of `s`; 0 when no
      match starts there. */
  function MatchLength(p: Pattern, s: string): (n: nat)
    ensures n <= |s|
  {
    match p
    case TimestampTag => if StartsWithTimestampTag(s) then 14 else 0
    case StyleTag => if HasPrefix(s, "<c>") then 3 else if HasPrefix(s, "</c>") then 4 else 0
    case DoubleSpace => if HasPrefix(s, "  ") then 2 else 0
  }

  function Replacement(p: Pattern): string {
    if p == DoubleSpace then " " else ""
  }

  /** No match of `p` starts anywhere in `s`. */
  predicate NoMatch(p: Pattern, s: string) {
    forall i :: 0 <= i < |s| ==> MatchLength(p, s[i..]) == 0
  }

  /** One pass of `ReplaceAllString` / `strings.ReplaceAll`: scanning left to
      right, each match is replaced and scanning resumes after it. Text is
      only ever removed, never added. */
  function ReplaceAll(p: Pattern, s: string): (r: string)
    ensures |r| <= |s|
    decreases |s|
  {
    if |s| == 0 then ""
    else
      var n := MatchLength(p, s);
      if n > 0 && n <= |s| then
        Replacement(p) + ReplaceAll(p, s[n..])
      else
        [s[0]] + ReplaceAll(p, s[1..])
  }

  /** Text with no match of the pattern comes through a pass unchanged. */
  lemma {:induction false} ReplaceAllWithoutMatch(p: Pattern, s: string)
    requires NoMatch(p, s)
    ensures ReplaceAll(p, s) == s
    decreases |s|
  {
    if |s| > 0 {
      assert s[0..] == s;
      forall i | 0 <= i < |s[1..]| ensures MatchLength(p, s[1..][i..]) == 0 {
        assert s[1..][i..] == s[i + 1..];
      }
      ReplaceAllWithoutMatch(p, s[1..]);
      assert s == [s[0]] + s[1..];
    }
  }

  // ---------------------------------------------------------------------------
  // What a pass does, independently of how it scans

  /** A piece of the input of a pass: a character it keeps, or a match. */
  datatype Piece = Kept(c: char) | Matched(text: string)

  /** The input the pieces make up. */
  function Original(ps: seq<Piece>): string {
    if |ps| == 0 then "" else (if ps[0].Kept? then [ps[0].c] else ps[0].text) + Original(ps[1..])
  }

  /** The pieces with every match replaced. */
  function Output(p: Pattern, ps: seq<Piece>): string {
    if |ps| == 0 then "" else (if ps[0].Kept? then [ps[0].c] else Replacement(p)) + Output(p, ps[1..])
  }

  /** The pieces are a left-to-right scan for `p`: a kept character is one
      where no match starts, and a match is the whole match starting where
      it stands. */
  predicate Scan(p: Pattern, ps: seq<Piece>) {
    forall j :: 0 <= j < |ps| ==>
      if ps[j].Kept? then MatchLength(p, Original(ps[j..])) == 0
      else 0 < |ps[j].text| == MatchLength(p, Original(ps[j..]))
  }

  lemma ScanTail(p: Pattern, ps: seq<Piece>)
    requires |ps| > 0 && Scan(p, ps)
    ensures Scan(p, ps[1..])
  {
    forall j | 0 <= j < |ps[1..]|
      ensures if ps[1..][j].Kept? then MatchLength(p, Original(ps[1..][j..])) == 0
              else 0 < |ps[1..][j].text| == MatchLength(p, Original(ps[1..][j..]))
    {
      assert ps[1..][j..] == ps[j + 1..];
    }
  }

  /** A pass replaces exactly the matches of a scan of its input and keeps
      every other character, in order. */
  lemma {:induction false} ReplaceAllOfScan(p: Pattern, ps: seq<Piece>)
    requires Scan(p, ps)
    ensures ReplaceAll(p, Original(ps)) == Output(p, ps)
  {
    if |ps| > 0 {
      var s := Original(ps);
      var rest := Original(ps[1..]);
      assert ps[0..] == ps;
      ScanTail(p, ps);
      ReplaceAllOfScan(p, ps[1..]);
      if ps[0].Kept? {
        assert s == [ps[0].c] + rest;
        assert s[1..] == rest;
      } else {
        var n := |ps[0].text|;
        assert s == ps[0].text + rest;
        assert s[n..] == rest;
      }
    }
  }

  /** Every input has such a scan. */
  function Pieces(p: Pattern, s: string): (ps: seq<Piece>)
    ensures Original(ps) == s
    ensures Scan(p, ps)
    decreases |s|
  {
    if |s| == 0 then []
    else
      var n := MatchLength(p, s);
      if n > 0 then
        var rest := Pieces(p, s[n..]);
        assert s[..n] + s[n..] == s;
        PiecesCons(p, Matched(s[..n]), rest, s[n..]);
        [Matched(s[..n])] + rest
      else
        var rest := Pieces(p, s[1..]);
        assert [s[0]] + s[1..] == s;
        PiecesCons(p, Kept(s[0]), rest, s[1..]);
        [Kept(s[0])] + rest
  }

  lemma PiecesCons(p: Pattern, head: Piece, rest: seq<Piece>, tail: string)
    requires Original(rest) == tail && Scan(p, rest)
    requires var s := (if head.Kept? then [head.c] else head.text) + tail;
      if head.Kept? then MatchLength(p, s) == 0 else 0 < |head.text| == MatchLength(p, s)
    ensures Original([head] + rest) == (if head.Kept? then [head.c] else head.text) + tail
    ensures Scan(p, [head] + rest)
  {
    assert ([head] + rest)[1..] == rest;
    ScanCons(p, head, rest);
  }

  lemma ScanCons(p: Pattern, head: Piece, rest: seq<Piece>)
    requires Scan(p, rest)
    requires var s := (if head.Kept? then [head.c] else head.text) + Original(rest);
      if head.Kept? then MatchLength(p, s) == 0 else 0 < |head.text| == MatchLength(p, s)
    ensures Scan(p, [head] + rest)
  {
    var ps := [head] + rest;
    assert ps[1..] == rest;
    forall j | 0 <= j < |ps|
      ensures if ps[j].Kept? then MatchLength(p, Original(ps[j..])) == 0
              else 0 < |ps[j].text| == MatchLength(p, Original(ps[j..]))
    {
      if j > 0 {
        assert ps[j..] == rest[j - 1..];
      } else {
        assert ps[0..] == ps;
      }
    }
  }

  /** `cleanSubtitleText`: timing tags out, then style tags out, then one pass
      collapsing double spaces, then trimming. The result is trimmed and no
      longer than the input. */
  function CleanSubtitleText(text: string): (r: string)
    ensures |r| <= |text|
    ensures |r| == 0 || (!IsSpace(r[0]) && !IsSpace(r[|r| - 1]))
  {
    TrimSpace(ReplaceAll(DoubleSpace, ReplaceAll(StyleTag, ReplaceAll(TimestampTag, text))))
  }

  // ---------------------------------------------------------------------------
  // Properties

  /** Both tag patterns start with `<`, so text without `<` holds neither. */
  lemma NoTagsWithoutAngle(s: string)
    requires '<' !in s
    ensures NoMatch(TimestampTag, s) && NoMatch(StyleTag, s)
  {
    forall i | 0 <= i < |s| ensures MatchLength(TimestampTag, s[i..]) == 0 && MatchLength(StyleTag, s[i..]) == 0 {
      assert s[i..][0] == s[i];
    }
  }

  predicate NoDoubleSpace(s: string) {
    forall i :: 0 <= i < |s| - 1 ==> !(s[i] == ' ' && s[i + 1] == ' ')
  }

  lemma NoDoubleSpaceNoMatch(s: string)
    requires NoDoubleSpace(s)
    ensures NoMatch(DoubleSpace, s)
  {
    forall i | 0 <= i < |s| ensures !HasPrefix(s[i..], "  ") {
      if i < |s| - 1 {
        assert !(s[i] == ' ' && s[i + 1] == ' ');
        assert s[i..][0] == s[i] && s[i..][1] == s[i + 1];
      }
    }
  }

  /** Plain caption text (no `<`, no double space, already trimmed) comes
      through cleaning unchanged. */
  lemma CleanPlainText(text: string)
    requires '<' !in text
    requires NoDoubleSpace(text)
    requires |text| == 0 || (!IsSpace(text[0]) && !IsSpace(text[|text| - 1]))
    ensures CleanSubtitleText(text) == text
  {
    NoTagsWithoutAngle(text);
    ReplaceAllWithoutMatch(TimestampTag, text);
    ReplaceAllWithoutMatch(StyleTag, text);
    NoDoubleSpaceNoMatch(text);
    ReplaceAllWithoutMatch(DoubleSpace, text);
    TrimSpaceOfTrimmed(text);
  }

  /** Text before the first `<` passes through the tag rewrites untouched. */
  lemma {:induction false} ReplaceAllKeepsPlainPrefix(p: Pattern, a: string, b: string)
    requires p != DoubleSpace
    requires '<' !in a
    ensures ReplaceAll(p, a + b) == a + ReplaceAll(p, b)
  {
    if |a| > 0 {
      var s := a + b;
      assert s[0] == a[0];
      assert MatchLength(p, s) == 0;
      assert s[1..] == a[1..] + b;
      ReplaceAllKeepsPlainPrefix(p, a[1..], b);
      assert a == [a[0]] + a[1..];
    } else {
      assert a + b == b;
    }
  }

  /** A match at the front is replaced and the scan resumes right after it. */
  lemma ReplaceAllAtMatch(p: Pattern, m: string, b: string)
    requires |m| > 0 && MatchLength(p, m + b) == |m|
    ensures ReplaceAll(p, m + b) == Replacement(p) + ReplaceAll(p, b)
  {
    assert (m + b)[|m|..] == b;
  }

  /** A position where no match starts keeps its character. */
  lemma ReplaceAllKeeps(p: Pattern, c: char, b: string)
    requires MatchLength(p, [c] + b) == 0
    ensures ReplaceAll(p, [c] + b) == [c] + ReplaceAll(p, b)
  {
    assert ([c] + b)[1..] == b;
  }

  /** A `<` that opens no timing tag is kept. */
  lemma TimestampPassKeepsAngle(x: string, b: string)
    requires '<' !in x
    requires |x| > 0 && !IsDigit(x[0])
    ensures ReplaceAll(TimestampTag, ['<'] + (x + b)) == ['<'] + (x + ReplaceAll(TimestampTag, b))
  {
    NoTimingTagAtAngle(x + b);
    ReplaceAllKeeps(TimestampTag, '<', x + b);
    ReplaceAllKeepsPlainPrefix(TimestampTag, x, b);
  }

  lemma NoTimingTagAtAngle(y: string)
    requires |y| > 0 && !IsDigit(y[0])
    ensures MatchLength(TimestampTag, ['<'] + y) == 0
  {
    assert (['<'] + y)[1] == y[0];
  }

  /** Each rewrite is a single pass: `<c>` cut out of the middle of
      `<<c>c>` leaves a `<c>` that is not removed again. */
  lemma CleanIsSinglePass(x: string)
    requires '<' !in x
    ensures ReplaceAll(StyleTag, "<<c>c>" + x) == "<c>" + x
  {
    NestedTagShape(x);
    NestedTagPass(x);
    assert ['<'] + ("c>" + x) == "<c>" + x;
  }

  lemma NestedTagShape(x: string)
    ensures "<<c>c>" + x == ['<'] + ("<c>" + ("c>" + x))
  {
  }

  lemma NestedTagPass(x: string)
    requires '<' !in x
    ensures ReplaceAll(StyleTag, ['<'] + ("<c>" + ("c>" + x))) == ['<'] + ("c>" + x)
  {
    NoStyleTagAtDoubleAngle("c>" + x);
    ReplaceAllKeeps(StyleTag, '<', "<c>" + ("c>" + x));
    OpeningStyleTagRemoved("c>" + x);
    PlainTextKept("c>" + x);
  }

  lemma NoStyleTagAtDoubleAngle(y: string)
    ensures MatchLength(StyleTag, ['<'] + ("<c>" + y)) == 0
  {
    var s := ['<'] + ("<c>" + y);
    assert s[1] == '<';
  }

  lemma OpeningStyleTagRemoved(y: string)
    ensures ReplaceAll(StyleTag, "<c>" + y) == ReplaceAll(StyleTag, y)
  {
    assert ("<c>" + y)[..3] == "<c>";
    ReplaceAllAtMatch(StyleTag, "<c>", y);
  }

  lemma PlainTextKept(y: string)
    requires '<' !in y
    ensures ReplaceAll(StyleTag, y) == y
  {
    NoTagsWithoutAngle(y);
    ReplaceAllWithoutMatch(StyleTag, y);
  }

  lemma NoMatchTimestampShort(s: string)
    requires |s| < 14
    ensures NoMatch(TimestampTag, s)
  {
  }

  /** An auto-generated caption line: a word, its timing tag, and the next
      word wrapped in a style tag clean to the two words. */
  lemma CleanTimedWord(a: string, tag: string, b: string)
    requires '<' !in a && '<' !in b
    requires |tag| == 14 && StartsWithTimestampTag(tag)
    requires NoDoubleSpace(a + b)
    requires |a + b| == 0 || (!IsSpace((a + b)[0]) && !IsSpace((a + b)[|a + b| - 1]))
    ensures CleanSubtitleText(a + tag + "<c>" + b + "</c>") == a + b
  {
    TimingTagRemoved(a, tag, b);
    StyleTagsRemoved(a, b);
    NoDoubleSpaceNoMatch(a + b);
    ReplaceAllWithoutMatch(DoubleSpace, a + b);
    TrimSpaceOfTrimmed(a + b);
  }

  lemma TimingTagRemoved(a: string, tag: string, b: string)
    requires '<' !in a && '<' !in b
    requires |tag| == 14 && StartsWithTimestampTag(tag)
    ensures ReplaceAll(TimestampTag, a + tag + "<c>" + b + "</c>") == a + "<c>" + b + "</c>"
  {
    TimedLineShape(a, tag, b);
    TimingTagAfterPlain(a, tag, "<c>" + b + "</c>");
    TimestampPassKeepsStyleTags(b);
  }

  lemma TimedLineShape(a: string, tag: string, b: string)
    ensures a + tag + "<c>" + b + "</c>" == a + (tag + ("<c>" + b + "</c>"))
  {
  }

  lemma TimingTagAfterPlain(a: string, tag: string, rest: string)
    requires '<' !in a
    requires |tag| == 14 && StartsWithTimestampTag(tag)
    ensures ReplaceAll(TimestampTag, a + (tag + rest)) == a + ReplaceAll(TimestampTag, rest)
  {
    ReplaceAllKeepsPlainPrefix(TimestampTag, a, tag + rest);
    TimingTagAtFront(tag, rest);
  }

  lemma TimingTagAtFront(tag: string, rest: string)
    requires |tag| == 14 && StartsWithTimestampTag(tag)
    ensures ReplaceAll(TimestampTag, tag + rest) == ReplaceAll(TimestampTag, rest)
  {
    assert (tag + rest)[..14] == tag;
    assert forall k :: 0 <= k < 14 ==> (tag + rest)[k] == tag[k];
    ReplaceAllAtMatch(TimestampTag, tag, rest);
  }

  lemma TimestampPassKeepsStyleTags(b: string)
    requires '<' !in b
    ensures ReplaceAll(TimestampTag, "<c>" + b + "</c>") == "<c>" + b + "</c>"
  {
    StyleLineShape(b);
    TimestampPassKeepsAngle("c>" + b, "</c>");
    TimestampPassKeepsClosingTag();
  }

  lemma StyleLineShape(b: string)
    ensures "<c>" + b + "</c>" == ['<'] + (("c>" + b) + "</c>")
  {
  }

  lemma TimestampPassKeepsClosingTag()
    ensures ReplaceAll(TimestampTag, "</c>") == "</c>"
  {
    NoMatchTimestampShort("</c>");
    ReplaceAllWithoutMatch(TimestampTag, "</c>");
  }

  lemma StyleTagsRemoved(a: string, b: string)
    requires '<' !in a && '<' !in b
    ensures ReplaceAll(StyleTag, a + "<c>" + b + "</c>") == a + b
  {
    assert a + "<c>" + b + "</c>" == a + ("<c>" + (b + "</c>"));
    ReplaceAllKeepsPlainPrefix(StyleTag, a, "<c>" + (b + "</c>"));
    OpeningStyleTagRemoved(b + "</c>");
    ClosingTagAfterPlain(b);
  }

  lemma ClosingTagAfterPlain(b: string)
    requires '<' !in b
    ensures ReplaceAll(StyleTag, b + "</c>") == b
  {
    ReplaceAllKeepsPlainPrefix(StyleTag, b, "</c>");
    ClosingStyleTagRemoved();
    assert b + "" == b;
  }

  lemma ClosingStyleTagRemoved()
    ensures ReplaceAll(StyleTag, "</c>") == ""
  {
    assert "</c>"[..3] == "</c" && "</c>"[..4] == "</c>";
    assert "</c>" == "</c>" + "";
    ReplaceAllAtMatch(StyleTag, "</c>", "");
  }
}
