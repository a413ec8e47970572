/** Caption timestamps: the lenient reader `parseTimestamp` and the SubRip
    writer `formatSRTTimestamp` of internal/videos/main.go. Durations are
    integer milliseconds. */
module Timestamp {
  import opened Text

  const MsPerSecond: nat := 1000
  const MsPerMinute: nat := 60 * MsPerSecond
  const MsPerHour: nat := 60 * MsPerMinute

  /** One field as `time.ParseDuration` reads it once the unit letter is
      appended: a non-empty digit string gives its value; anything else fails
      to parse, and the ignored error leaves zero. */
  function FieldValue(s: string): nat {
    if |s| > 0 && AllDigits(s) then DigitsValue(s) else 0
  }

  /** The millisecond digits: right-padded with `0` up to three characters,
      then cut to three. */
  function Fraction3(f: string): (r: string)
    ensures |r| == 3
    ensures forall i :: 0 <= i < 3 ==> r[i] == (if i < |f| then f[i] else '0')
    decreases 3 - |f|
  {
    if |f| >= 3 then f[..3] else Fraction3(f + "0")
  }

  /** The part of a timestamp before its first space. */
  function BeforeSpace(t: string): (r: string)
    ensures ' ' !in r
    ensures HasPrefix(t, r)
  {
    var i := IndexOf(t, " ");
    IndexOfCharFinds(t, ' ');
    if i >= 0 then
      IndexOfCharFinds(t[..i], ' ');
      assert IndexOf(t[..i], " ") == -1 by {
        forall j | 0 <= j <= i ensures !OccursAt(t[..i], " ", j) {
          if j < i {
            assert t[..i][j..j + 1] == t[j..j + 1];
            assert !OccursAt(t, " ", j);
          }
        }
      }
      t[..i]
    else t
  }

  /** `parseTimestamp`: `HH:MM:SS[.,]fff [annotation]` to milliseconds. */
  function ParseTimestamp(timestamp: string): (ms: nat) {
    FieldsToMs(Split(ReplaceChar(BeforeSpace(timestamp), ',', '.'), ":"))
  }

  /** The colon-separated fields of a timestamp to milliseconds; fewer than
      three fields read as zero and fields past the third are ignored. */
  function FieldsToMs(parts: seq<string>): nat {
    if |parts| < 3 then 0
    else
      FieldValue(parts[0]) * MsPerHour + FieldValue(parts[1]) * MsPerMinute + SecondsToMs(Split(parts[2], "."))
  }

  /** The seconds field split at `.`: whole seconds, then up to three
      millisecond digits. */
  function SecondsToMs(secondParts: seq<string>): nat
    requires |secondParts| >= 1
  {
    var millis := if |secondParts| > 1 then FieldValue(Fraction3(secondParts[1])) else 0;
    FieldValue(secondParts[0]) * MsPerSecond + millis
  }

  /** `formatSRTTimestamp`: whole seconds as `HH:MM:SS,000`, with Go's
      truncating `/` and `%`. */
  function FormatSrtTimestamp(seconds: int): string {
    Pad2(GoDiv(seconds, 3600)) + ":" + Pad2(GoDiv(GoMod(seconds, 3600), 60)) + ":"
      + Pad2(GoMod(seconds, 60)) + ",000"
  }

  // ---------------------------------------------------------------------------
  // Properties

  lemma ReplaceCharAppend(a: string, b: string, x: char, y: char)
    ensures ReplaceChar(a + b, x, y) == ReplaceChar(a, x, y) + ReplaceChar(b, x, y)
  {
  }

  lemma ReplaceCharAbsent(a: string, x: char, y: char)
    requires x !in a
    ensures ReplaceChar(a, x, y) == a
  {
  }

  lemma ReplaceCharKeepsCount(s: string, x: char, y: char, c: char)
    requires c != x && c != y
    ensures CountChar(ReplaceChar(s, x, y), c) == CountChar(s, c)
  {
    if |s| > 0 {
      assert s == [s[0]] + s[1..];
      ReplaceCharAppend([s[0]], s[1..], x, y);
      assert ReplaceChar(s, x, y)[1..] == ReplaceChar(s[1..], x, y);
      ReplaceCharKeepsCount(s[1..], x, y, c);
    }
  }

  /** A timestamp whose part before the first space holds fewer than two
      colons has fewer than three fields and reads as zero. */
  lemma ParseTimestampNeedsThreeFields(timestamp: string)
    requires CountChar(BeforeSpace(timestamp), ':') < 2
    ensures ParseTimestamp(timestamp) == 0
  {
    var t := ReplaceChar(BeforeSpace(timestamp), ',', '.');
    ReplaceCharKeepsCount(BeforeSpace(timestamp), ',', '.', ':');
    SplitCharCount(t, ':');
  }

  /** The part before the first space of a space-free text followed by an
      annotation that starts with a space is that text. */
  lemma BeforeSpaceOfAnnotated(x: string, note: string)
    requires ' ' !in x
    requires |note| == 0 || note[0] == ' '
    ensures BeforeSpace(x + note) == x
  {
    if |note| == 0 {
      assert x + note == x;
      IndexOfAbsentChar(x, ' ');
    } else {
      assert x + note == x + [' '] + note[1..];
      IndexOfChar(x, ' ', note[1..]);
      assert (x + note)[..|x|] == x;
    }
  }

  lemma SplitTimestampColons(h: string, m: string, rest: string)
    requires ':' !in h && ':' !in m && ':' !in rest
    ensures Split(h + ":" + m + ":" + rest, ":") == [h, m, rest]
  {
    SplitAbsentChar(rest, ':');
    SplitAtChar(m, ':', rest);
    assert h + ":" + m + ":" + rest == h + [':'] + (m + [':'] + rest);
    SplitAtChar(h, ':', m + [':'] + rest);
  }

  lemma SplitSecondsAndFraction(sec: string, frac: string)
    requires '.' !in sec && '.' !in frac
    ensures Split(sec + "." + frac, ".") == [sec, frac]
  {
    SplitAbsentChar(frac, '.');
    SplitAtChar(sec, '.', frac);
  }

  /** What the reader makes of a timestamp with a fraction: hours, minutes
      and seconds as digit strings, then `.` or `,`, then digits of which the
      first three (right-padded with zeros) are milliseconds, then an optional
      annotation after a space, which is ignored. */
  lemma ParseTimestampFields(h: string, m: string, sec: string, sep: char, frac: string, note: string)
    requires |h| > 0 && AllDigits(h) && |m| > 0 && AllDigits(m) && |sec| > 0 && AllDigits(sec)
    requires sep == '.' || sep == ','
    requires AllDigits(frac)
    requires |note| == 0 || note[0] == ' '
    ensures ParseTimestamp(h + ":" + m + ":" + sec + [sep] + frac + note)
         == DigitsValue(h) * MsPerHour + DigitsValue(m) * MsPerMinute + DigitsValue(sec) * MsPerSecond
            + FieldValue(Fraction3(frac))
  {
    var t := h + ":" + m + ":" + sec + [sep] + frac + note;
    var rest := sec + "." + frac;
    calc {
      ParseTimestamp(t);
      FieldsToMs(Split(ReplaceChar(BeforeSpace(t), ',', '.'), ":"));
      { NormalizeFractionSeparator(h, m, sec, sep, frac, note); }
      FieldsToMs(Split(h + ":" + m + ":" + rest, ":"));
      { SplitTimestampColons(h, m, rest); }
      FieldsToMs([h, m, rest]);
      DigitsValue(h) * MsPerHour + DigitsValue(m) * MsPerMinute + SecondsToMs(Split(rest, "."));
      { SplitSecondsAndFraction(sec, frac); }
      DigitsValue(h) * MsPerHour + DigitsValue(m) * MsPerMinute + SecondsToMs([sec, frac]);
    }
  }

  /** Cutting the annotation and turning `,` into `.` leaves the fields. */
  lemma NormalizeFractionSeparator(h: string, m: string, sec: string, sep: char, frac: string, note: string)
    requires AllDigits(h) && AllDigits(m) && AllDigits(sec)
    requires sep == '.' || sep == ','
    requires AllDigits(frac)
    requires |note| == 0 || note[0] == ' '
    ensures ReplaceChar(BeforeSpace(h + ":" + m + ":" + sec + [sep] + frac + note), ',', '.')
         == h + ":" + m + ":" + (sec + "." + frac)
  {
    var p := h + ":" + m + ":" + sec;
    var x := p + [sep] + frac;
    assert ' ' !in x;
    BeforeSpaceOfAnnotated(x, note);
    assert h + ":" + m + ":" + sec + [sep] + frac + note == x + note;
    assert ',' !in p;
    ReplaceInFraction(p, sep, frac);
    assert p + "." + frac == h + ":" + m + ":" + (sec + "." + frac);
  }

  lemma ReplaceInFraction(p: string, sep: char, frac: string)
    requires ',' !in p && ',' !in frac
    requires sep == '.' || sep == ','
    ensures ReplaceChar(p + [sep] + frac, ',', '.') == p + "." + frac
  {
    ReplaceCharAppend(p + [sep], frac, ',', '.');
    ReplaceCharAppend(p, [sep], ',', '.');
    ReplaceCharAbsent(p, ',', '.');
    ReplaceCharAbsent(frac, ',', '.');
  }

  /** A timestamp without a fraction reads as its hours, minutes and seconds. */
  lemma ParseTimestampWholeSeconds(h: string, m: string, sec: string, note: string)
    requires |h| > 0 && AllDigits(h) && |m| > 0 && AllDigits(m) && |sec| > 0 && AllDigits(sec)
    requires |note| == 0 || note[0] == ' '
    ensures ParseTimestamp(h + ":" + m + ":" + sec + note)
         == DigitsValue(h) * MsPerHour + DigitsValue(m) * MsPerMinute + DigitsValue(sec) * MsPerSecond
  {
    WholeSecondsNormalized(h, m, sec, note);
    SplitTimestampColons(h, m, sec);
    WholeSecondsField(sec);
  }

  lemma WholeSecondsNormalized(h: string, m: string, sec: string, note: string)
    requires AllDigits(h) && AllDigits(m) && AllDigits(sec)
    requires |note| == 0 || note[0] == ' '
    ensures ReplaceChar(BeforeSpace(h + ":" + m + ":" + sec + note), ',', '.') == h + ":" + m + ":" + sec
  {
    var x := h + ":" + m + ":" + sec;
    assert ' ' !in x && ',' !in x;
    BeforeSpaceOfAnnotated(x, note);
    ReplaceCharAbsent(x, ',', '.');
  }

  lemma WholeSecondsField(sec: string)
    requires |sec| > 0 && AllDigits(sec)
    ensures SecondsToMs(Split(sec, ".")) == DigitsValue(sec) * MsPerSecond
  {
    assert '.' !in sec;
    SplitAbsentChar(sec, '.');
  }

  /** Whole seconds split into hours, minutes and seconds add back up. */
  lemma ClockDecomposition(seconds: nat)
    ensures seconds == (seconds / 3600) * 3600 + ((seconds % 3600) / 60) * 60 + seconds % 60
  {
    assert seconds % 3600 == ((seconds % 3600) / 60) * 60 + (seconds % 3600) % 60;
    assert (seconds % 3600) % 60 == seconds % 60;
  }

  lemma FormatSrtTimestampNonNegative(seconds: nat)
    ensures FormatSrtTimestamp(seconds)
         == Pad2(seconds / 3600) + ":" + Pad2((seconds % 3600) / 60) + ":" + Pad2(seconds % 60) + [','] + "000" + ""
  {
    assert GoDiv(GoMod(seconds, 3600), 60) == (seconds % 3600) / 60;
  }

  /** The reader reads back every whole-second time the SubRip writer emits. */
  lemma FormatParseRoundTrip(seconds: nat)
    ensures ParseTimestamp(FormatSrtTimestamp(seconds)) == seconds * MsPerSecond
  {
    var hh := seconds / 3600;
    var mm := (seconds % 3600) / 60;
    var ss := seconds % 60;
    FormatSrtTimestampNonNegative(seconds);
    ParseClock(hh, mm, ss);
    ClockDecomposition(seconds);
  }

  /** A clock reading written by the SubRip writer reads back as its value. */
  lemma ParseClock(hh: nat, mm: nat, ss: nat)
    ensures ParseTimestamp(Pad2(hh) + ":" + Pad2(mm) + ":" + Pad2(ss) + [','] + "000" + "")
         == (hh * 3600 + mm * 60 + ss) * MsPerSecond
  {
    ParseTimestampFields(Pad2(hh), Pad2(mm), Pad2(ss), ',', "000", "");
    ZeroMillis();
    assert DigitsValue(Pad2(hh)) == hh && DigitsValue(Pad2(mm)) == mm && DigitsValue(Pad2(ss)) == ss;
    ClockMillis(hh, mm, ss);
  }

  lemma ClockMillis(hh: nat, mm: nat, ss: nat)
    ensures hh * MsPerHour + mm * MsPerMinute + ss * MsPerSecond + 0 == (hh * 3600 + mm * 60 + ss) * MsPerSecond
  {
  }

  lemma ZeroMillis()
    ensures FieldValue(Fraction3("000")) == 0
  {
    assert Fraction3("000") == "000";
    DigitsValueZeros("000");
  }
}
