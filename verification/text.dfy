/** The subset of Go's `strings`, `strconv` and `fmt` behaviour the pipeline
    relies on, over `string` = `seq<char>`. */
module Text {

  /** Go's `unicode.IsSpace`, which both `strings.TrimSpace` and
      `strings.Fields` use. */
  predicate IsSpace(c: char) {
    || c == ' ' || c == '\t' || c == '\n' || c == '\U{000B}' || c == '\U{000C}' || c == '\r'
    || c == '\U{0085}' || c == '\U{00A0}' || c == '\U{1680}'
    || ('\U{2000}' <= c <= '\U{200A}')
    || c == '\U{2028}' || c == '\U{2029}' || c == '\U{202F}' || c == '\U{205F}' || c == '\U{3000}'
  }

  predicate AllSpace(s: string) {
    forall i :: 0 <= i < |s| ==> IsSpace(s[i])
  }

  predicate NoSpace(s: string) {
    forall i :: 0 <= i < |s| ==> !IsSpace(s[i])
  }

  /** A non-empty run of non-space characters. */
  predicate IsWord(w: string) {
    |w| > 0 && NoSpace(w)
  }

  // ---------------------------------------------------------------------------
  // Trimming

  function TrimLeft(s: string): (r: string)
    ensures |r| <= |s| && r == s[|s| - |r|..]
    ensures forall k :: 0 <= k < |s| - |r| ==> IsSpace(s[k])
    ensures |r| == 0 || !IsSpace(r[0])
  {
    if |s| > 0 && IsSpace(s[0]) then TrimLeft(s[1..]) else s
  }

  function TrimRight(s: string): (r: string)
    ensures |r| <= |s| && r == s[..|r|]
    ensures forall k :: |r| <= k < |s| ==> IsSpace(s[k])
    ensures |r| == 0 || !IsSpace(r[|r| - 1])
  {
    if |s| > 0 && IsSpace(s[|s| - 1]) then TrimRight(s[..|s| - 1]) else s
  }

  /** `strings.TrimSpace`: `s` with its leading and trailing white space
      removed. */
  function TrimSpace(s: string): (r: string)
    ensures |r| <= |s|
    ensures |r| == 0 || (!IsSpace(r[0]) && !IsSpace(r[|r| - 1]))
  {
    TrimRight(TrimLeft(s))
  }

  /** What trimming keeps is a slice of `s`, and what it drops on either
      side is white space. */
  lemma TrimSpaceSlice(s: string)
    ensures var r := TrimSpace(s);
      exists i :: 0 <= i <= |s| - |r| && r == s[i..i + |r|] && AllSpace(s[..i]) && AllSpace(s[i + |r|..])
  {
    var l := TrimLeft(s);
    var r := TrimRight(l);
    var i := |s| - |l|;
    SpacePrefix(s, i);
    SpaceSuffix(s, l, r, i);
    assert r == l[..|r|];
    MiddleSlice(s, l, r, i);
    assert TrimSpace(s) == r;
  }

  lemma MiddleSlice(s: string, l: string, r: string, i: nat)
    requires i <= |s| && l == s[i..] && |r| <= |l| && r == l[..|r|]
    ensures r == s[i..i + |r|]
  {
  }

  lemma SpacePrefix(s: string, i: nat)
    requires i <= |s| && forall k :: 0 <= k < i ==> IsSpace(s[k])
    ensures AllSpace(s[..i])
  {
    forall k | 0 <= k < i ensures IsSpace(s[..i][k]) {
      assert s[..i][k] == s[k];
    }
  }

  lemma SpaceSuffix(s: string, l: string, r: string, i: nat)
    requires i <= |s| && l == s[i..]
    requires |r| <= |l| && forall k :: |r| <= k < |l| ==> IsSpace(l[k])
    ensures AllSpace(s[i + |r|..])
  {
    var t := s[i + |r|..];
    forall k | 0 <= k < |t| ensures IsSpace(t[k]) {
      assert t[k] == l[|r| + k];
    }
  }

  lemma TrimSpaceOfTrimmed(s: string)
    requires |s| == 0 || (!IsSpace(s[0]) && !IsSpace(s[|s| - 1]))
    ensures TrimSpace(s) == s
  {
  }

  lemma TrimSpaceSkipsLeadingSpace(c: char, s: string)
    requires IsSpace(c)
    ensures TrimSpace([c] + s) == TrimSpace(s)
  {
    assert ([c] + s)[1..] == s;
  }

  // ---------------------------------------------------------------------------
  // Searching

  predicate OccursAt(s: string, sep: string, i: int) {
    0 <= i && i + |sep| <= |s| && s[i..i + |sep|] == sep
  }

  /** Occurrences in `s[1..]` are the occurrences in `s` one position later. */
  lemma OccursAtShift(s: string, sep: string)
    requires |s| > 0
    ensures forall j :: 1 <= j ==> (OccursAt(s, sep, j) <==> OccursAt(s[1..], sep, j - 1))
  {
    forall j | 1 <= j ensures OccursAt(s, sep, j) <==> OccursAt(s[1..], sep, j - 1) {
      if j + |sep| <= |s| {
        assert s[1..][j - 1..j - 1 + |sep|] == s[j..j + |sep|];
      }
    }
  }

  /** `strings.Index`: the first position of `sep` in `s`, or -1. */
  function IndexOf(s: string, sep: string): (r: int)
    ensures -1 <= r <= |s|
    ensures r >= 0 ==> OccursAt(s, sep, r)
    ensures r >= 0 ==> forall j :: 0 <= j < r ==> !OccursAt(s, sep, j)
    ensures r == -1 ==> forall j :: 0 <= j <= |s| ==> !OccursAt(s, sep, j)
    decreases |s|
  {
    if |s| < |sep| then -1
    else if s[..|sep|] == sep then 0
    else
      var t := IndexOf(s[1..], sep);
      OccursAtShift(s, sep);
      if t < 0 then -1 else t + 1
  }

  /** `strings.Contains`. */
  predicate Contains(s: string, sep: string) {
    IndexOf(s, sep) >= 0
  }

  lemma IndexOfPrefix(s: string, sep: string, extra: string)
    requires IndexOf(s, sep) >= 0
    ensures IndexOf(s + extra, sep) == IndexOf(s, sep)
  {
    var i := IndexOf(s, sep);
    assert (s + extra)[i..i + |sep|] == s[i..i + |sep|];
    assert OccursAt(s + extra, sep, i);
    forall j | 0 <= j < i ensures !OccursAt(s + extra, sep, j) {
      assert (s + extra)[j..j + |sep|] == s[j..j + |sep|];
      assert !OccursAt(s, sep, j);
    }
  }

  /** The first `c` is found at the end of a prefix that holds no `c`. */
  lemma IndexOfChar(a: string, c: char, b: string)
    requires c !in a
    ensures IndexOf(a + [c] + b, [c]) == |a|
  {
    var s := a + [c] + b;
    assert s[|a|..|a| + 1] == [c];
    assert OccursAt(s, [c], |a|);
    forall j | 0 <= j < |a| ensures !OccursAt(s, [c], j) {
      assert s[j..j + 1] == [a[j]];
    }
  }

  lemma IndexOfAbsentChar(s: string, c: char)
    requires c !in s
    ensures IndexOf(s, [c]) == -1
  {
    forall j | 0 <= j <= |s| ensures !OccursAt(s, [c], j) {
      if j < |s| {
        assert s[j..j + 1] == [s[j]];
      }
    }
  }

  /** `c` occurs in `s` exactly when the one-character search finds it. */
  lemma IndexOfCharFinds(s: string, c: char)
    ensures c in s <==> IndexOf(s, [c]) >= 0
  {
    if c in s {
      var j :| 0 <= j < |s| && s[j] == c;
      assert s[j..j + 1] == [c];
      assert OccursAt(s, [c], j);
    } else {
      IndexOfAbsentChar(s, c);
    }
  }

  /** `strings.LastIndex` for a one-character separator. */
  function LastIndexOfChar(s: string, c: char): (r: int)
    ensures -1 <= r < |s|
    ensures r >= 0 ==> s[r] == c
    ensures forall j :: r < j < |s| ==> s[j] != c
  {
    if |s| == 0 then -1
    else if s[|s| - 1] == c then |s| - 1
    else LastIndexOfChar(s[..|s| - 1], c)
  }

  /** `strings.HasPrefix`. */
  predicate HasPrefix(s: string, p: string) {
    |p| <= |s| && s[..|p|] == p
  }

  /** `strings.TrimPrefix`. */
  function TrimPrefix(s: string, p: string): (r: string)
    ensures HasPrefix(s, p) ==> s == p + r
    ensures !HasPrefix(s, p) ==> r == s
  {
    if HasPrefix(s, p) then s[|p|..] else s
  }

  /** `strings.ReplaceAll` with a one-character pattern and replacement. */
  function ReplaceChar(s: string, from: char, to: char): (r: string)
    ensures |r| == |s|
    ensures forall i :: 0 <= i < |s| ==> r[i] == (if s[i] == from then to else s[i])
  {
    seq(|s|, i requires 0 <= i < |s| => if s[i] == from then to else s[i])
  }

  // ---------------------------------------------------------------------------
  // Splitting and joining

  /** `strings.Join`. */
  function Join(parts: seq<string>, sep: string): string {
    if |parts| == 0 then ""
    else if |parts| == 1 then parts[0]
    else parts[0] + sep + Join(parts[1..], sep)
  }

  /** `strings.Split` for a non-empty separator. */
  function Split(s: string, sep: string): (r: seq<string>)
    requires |sep| > 0
    ensures |r| >= 1
    ensures IndexOf(s, sep) >= 0 <==> |r| >= 2
    decreases |s|
  {
    var i := IndexOf(s, sep);
    if i < 0 then [s] else [s[..i]] + Split(s[i + |sep|..], sep)
  }

  /** Joining the pieces of a split with the separator gives back the text,
      and no piece holds the separator. */
  lemma {:induction false} SplitJoin(s: string, sep: string)
    requires |sep| > 0
    ensures Join(Split(s, sep), sep) == s
    ensures forall k :: 0 <= k < |Split(s, sep)| ==> !Contains(Split(s, sep)[k], sep)
    decreases |s|
  {
    var i := IndexOf(s, sep);
    if i >= 0 {
      var head := s[..i];
      SplitJoin(s[i + |sep|..], sep);
      assert !Contains(head, sep) by {
        forall j | 0 <= j <= |head| ensures !OccursAt(head, sep, j) {
          if j + |sep| <= |head| {
            assert head[j..j + |sep|] == s[j..j + |sep|];
            assert !OccursAt(s, sep, j);
          }
        }
      }
      assert s == head + sep + s[i + |sep|..];
    }
  }

  lemma SplitAbsentChar(s: string, c: char)
    requires c !in s
    ensures Split(s, [c]) == [s]
  {
    IndexOfAbsentChar(s, c);
  }

  lemma SplitAtChar(a: string, c: char, b: string)
    requires c !in a
    ensures Split(a + [c] + b, [c]) == [a] + Split(b, [c])
  {
    IndexOfChar(a, c, b);
    var s := a + [c] + b;
    assert s[..|a|] == a;
    assert s[|a| + 1..] == b;
  }

  /** Splitting text joined with a one-character separator gives back the
      parts, provided none of them holds the separator. */
  lemma {:induction false} SplitJoinChar(parts: seq<string>, c: char)
    requires |parts| >= 1
    requires forall k :: 0 <= k < |parts| ==> c !in parts[k]
    ensures Split(Join(parts, [c]), [c]) == parts
    decreases |parts|
  {
    if |parts| == 1 {
      SplitAbsentChar(parts[0], c);
    } else {
      SplitJoinChar(parts[1..], c);
      SplitAtChar(parts[0], c, Join(parts[1..], [c]));
      assert parts == [parts[0]] + parts[1..];
    }
  }

  /** Number of occurrences of `c` in `s`. */
  function CountChar(s: string, c: char): nat {
    if |s| == 0 then 0 else (if s[0] == c then 1 else 0) + CountChar(s[1..], c)
  }

  lemma CountCharAbsent(s: string, c: char)
    requires c !in s
    ensures CountChar(s, c) == 0
  {
    if |s| > 0 {
      CountCharAbsent(s[1..], c);
    }
  }

  /** Counting through the first separator. */
  lemma CountCharAfterFirst(a: string, c: char, b: string)
    requires c !in a
    ensures CountChar(a + [c] + b, c) == CountChar(b, c) + 1
  {
    if |a| > 0 {
      assert (a + [c] + b)[1..] == a[1..] + [c] + b;
      CountCharAfterFirst(a[1..], c, b);
    } else {
      assert a + [c] + b == [c] + b;
      assert ([c] + b)[1..] == b;
    }
  }

  /** A one-character split yields one more piece than there are separators. */
  lemma {:induction false} SplitCharCount(s: string, c: char)
    ensures |Split(s, [c])| == CountChar(s, c) + 1
    decreases |s|
  {
    var i := IndexOf(s, [c]);
    if i < 0 {
      IndexOfCharFinds(s, c);
      CountCharAbsent(s, c);
    } else {
      var a := s[..i];
      var b := s[i + 1..];
      assert c !in a by {
        forall j | 0 <= j < |a| ensures a[j] != c {
          assert s[j..j + 1] == [s[j]];
          assert !OccursAt(s, [c], j);
        }
      }
      assert s[i..i + 1] == [c];
      assert s == a + [c] + b;
      SplitAtChar(a, c, b);
      SplitCharCount(b, c);
      CountCharAfterFirst(a, c, b);
    }
  }

  // ---------------------------------------------------------------------------
  // Fields

  /** Length of the leading run of non-space characters. */
  function WordLength(s: string): (n: nat)
    ensures n <= |s|
    ensures NoSpace(s[..n])
    ensures n < |s| ==> IsSpace(s[n])
  {
    if |s| == 0 || IsSpace(s[0]) then 0
    else
      var n := WordLength(s[1..]);
      assert s[..n + 1] == [s[0]] + s[1..][..n];
      n + 1
  }

  /** `strings.Fields`: the maximal runs of non-space characters, in order. */
  function Fields(s: string): (r: seq<string>)
    ensures forall k :: 0 <= k < |r| ==> IsWord(r[k])
    decreases |s|
  {
    if |s| == 0 then []
    else if IsSpace(s[0]) then Fields(s[1..])
    else
      var n := WordLength(s);
      [s[..n]] + Fields(s[n..])
  }

  lemma FieldsSkipSpace(sp: string, s: string)
    requires AllSpace(sp)
    ensures Fields(sp + s) == Fields(s)
  {
    if |sp| > 0 {
      assert (sp + s)[1..] == sp[1..] + s;
      FieldsSkipSpace(sp[1..], s);
    } else {
      assert sp + s == s;
    }
  }

  lemma WordLengthOfWord(w: string, s: string)
    requires NoSpace(w)
    requires |s| == 0 || IsSpace(s[0])
    ensures WordLength(w + s) == |w|
  {
    if |w| > 0 {
      assert (w + s)[0] == w[0] && !IsSpace(w[0]);
      assert (w + s)[1..] == w[1..] + s;
      assert NoSpace(w[1..]) by {
        forall k | 0 <= k < |w| - 1 ensures !IsSpace(w[1..][k]) {
          assert w[1..][k] == w[k + 1];
        }
      }
      WordLengthOfWord(w[1..], s);
    } else {
      assert w + s == s;
    }
  }

  /** A word followed by white space (or by nothing) is the next field. */
  lemma FieldsOfWord(w: string, s: string)
    requires |w| > 0 && NoSpace(w)
    requires |s| == 0 || IsSpace(s[0])
    ensures Fields(w + s) == [w] + Fields(s)
  {
    WordLengthOfWord(w, s);
    assert (w + s)[..|w|] == w;
    assert (w + s)[|w|..] == s;
  }

  /** Joining words with a white-space separator and splitting into fields
      gives back the words, followed by the fields of what comes after. */
  lemma {:induction false} FieldsOfJoin(words: seq<string>, sep: string, tail: string)
    requires |sep| > 0 && AllSpace(sep)
    requires forall k :: 0 <= k < |words| ==> IsWord(words[k])
    requires |tail| == 0 || IsSpace(tail[0])
    ensures Fields(Join(words, sep) + tail) == words + Fields(tail)
    decreases |words|
  {
    if |words| == 0 {
      assert Join(words, sep) + tail == tail;
    } else if |words| == 1 {
      FieldsOfWord(words[0], tail);
    } else {
      FieldsOfJoin(words[1..], sep, tail);
      assert Join(words, sep) + tail == words[0] + sep + (Join(words[1..], sep) + tail);
      FieldsOfJoinStep(words[0], sep, Join(words[1..], sep) + tail, words[1..], tail);
      assert words == [words[0]] + words[1..];
    }
  }

  lemma FieldsOfJoinStep(w: string, sep: string, rest: string, ws: seq<string>, tail: string)
    requires |sep| > 0 && AllSpace(sep) && IsWord(w)
    requires Fields(rest) == ws + Fields(tail)
    ensures Fields(w + sep + rest) == [w] + ws + Fields(tail)
  {
    assert w + sep + rest == w + (sep + rest);
    FieldsOfWord(w, sep + rest);
    FieldsSkipSpace(sep, rest);
  }

  // ---------------------------------------------------------------------------
  // Decimal digits

  predicate IsDigit(c: char) {
    '0' <= c <= '9'
  }

  predicate AllDigits(s: string) {
    forall i :: 0 <= i < |s| ==> IsDigit(s[i])
  }

  function DigitValue(c: char): nat
    requires IsDigit(c)
  {
    (c as int - '0' as int) as nat
  }

  function DigitChar(d: nat): (c: char)
    requires d < 10
    ensures IsDigit(c) && DigitValue(c) == d
  {
    ('0' as int + d) as char
  }

  /** The value of a decimal digit string, most significant digit first. */
  function DigitsValue(s: string): nat
    requires AllDigits(s)
  {
    if |s| == 0 then 0 else DigitsValue(s[..|s| - 1]) * 10 + DigitValue(s[|s| - 1])
  }

  lemma DigitsValueZeros(s: string)
    requires forall i :: 0 <= i < |s| ==> s[i] == '0'
    ensures AllDigits(s) && DigitsValue(s) == 0
  {
    if |s| > 0 {
      DigitsValueZeros(s[..|s| - 1]);
    }
  }

  /** Decimal rendering of a natural number, as `strconv.Itoa`. */
  function NatToString(n: nat): (r: string)
    ensures |r| > 0 && AllDigits(r)
    ensures DigitsValue(r) == n
  {
    if n < 10 then [DigitChar(n)]
    else
      var r := NatToString(n / 10) + [DigitChar(n % 10)];
      assert r[..|r| - 1] == NatToString(n / 10);
      r
  }

  /** `%d` writes no leading zero: one digit below 10, two from 10 to 99. */
  lemma {:induction false} NatToStringCanonical(n: nat)
    ensures var r := NatToString(n);
      && (r[0] == '0' ==> n == 0 && r == "0")
      && (|r| == 1 <==> n < 10)
      && (10 <= n < 100 ==> |r| == 2)
  {
    if n >= 10 {
      NatToStringCanonical(n / 10);
      assert NatToString(n)[0] == NatToString(n / 10)[0];
    }
  }

  /** `strconv.Itoa` / `%d`. */
  function Itoa(n: int): string {
    if n < 0 then "-" + NatToString(-n) else NatToString(n)
  }

  /** `%02d`: zero-padded to two characters; a minus sign counts toward the
      width, so a negative value is never padded. */
  function Pad2(n: int): (r: string)
    ensures n >= 0 ==> |r| >= 2 && AllDigits(r) && DigitsValue(r) == n
    ensures n < 0 ==> |r| > 0 && r[0] == '-'
  {
    if n < 0 then "-" + NatToString(-n)
    else if n < 10 then
      var r := "0" + NatToString(n);
      assert r[..|r| - 1] == "0";
      r
    else NatToString(n)
  }

  /** `%02d` is exactly two digits for 0 to 99, and the plain decimal text
      from 100 on. */
  lemma Pad2Width(n: int)
    requires n >= 0
    ensures n < 100 ==> |Pad2(n)| == 2
    ensures n >= 100 ==> Pad2(n) == NatToString(n)
  {
    NatToStringCanonical(n);
  }

  // ---------------------------------------------------------------------------
  // Go's truncating integer operators

  /** Go's `/` on integers: the quotient truncated toward zero. */
  function GoDiv(a: int, b: int): int
    requires b > 0
  {
    if a >= 0 then a / b else -((-a) / b)
  }

  /** Go's `%` on integers: the remainder takes the sign of the dividend. */
  function GoMod(a: int, b: int): int
    requires b > 0
  {
    a - GoDiv(a, b) * b
  }
}
