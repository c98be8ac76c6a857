/**
 The few pieces of Python's text handling that `read_params` relies on:
 reading a text file line by line with `readline`, the substring test
 `pat in text`, `str.split(sep)[0]` and `str.strip()`.
 */
module TextLines {

  /** `pat` occurs in `text` starting at index `i`. */
  predicate OccursAt(text: string, pat: string, i: nat) {
    i + |pat| <= |text| && text[i..i + |pat|] == pat
  }

  /** Python's `pat in text` for strings: `pat` occurs contiguously in `text`. */
  function Contains(text: string, pat: string): (r: bool)
    ensures r <==> exists i: nat :: OccursAt(text, pat, i)
    decreases |text|
  {
    if |pat| > |text| then false
    else if text[..|pat|] == pat then assert OccursAt(text, pat, 0); true
    else
      var r := Contains(text[1..], pat);
      assert r ==> exists i: nat :: OccursAt(text, pat, i) by {
        if r {
          var i: nat :| OccursAt(text[1..], pat, i);
          assert text[1..][i..i + |pat|] == text[i + 1..i + 1 + |pat|];
          assert OccursAt(text, pat, i + 1);
        }
      }
      assert (exists i: nat :: OccursAt(text, pat, i)) ==> r by {
        if exists i: nat :: OccursAt(text, pat, i) {
          var i: nat :| OccursAt(text, pat, i);
          assert i != 0;
          assert text[1..][i - 1..i - 1 + |pat|] == text[i..i + |pat|];
          assert OccursAt(text[1..], pat, i - 1);
        }
      }
      r
  }

  /** `s.split(sep)[0]`: everything before the first `sep`, or all of `s` if there is none. */
  function BeforeFirst(s: string, sep: char): (r: string)
    ensures |r| <= |s| && r == s[..|r|]
    ensures sep !in r
    ensures |r| < |s| ==> s[|r|] == sep
  {
    if s == [] || s[0] == sep then [] else [s[0]] + BeforeFirst(s[1..], sep)
  }

  /**
   Python's `str.isspace` for one character: the ASCII whitespace and
   separator controls, NEL, NO-BREAK SPACE and the Unicode space separators.
   */
  predicate IsSpace(c: char) {
    var n := c as int;
    || (0x09 <= n <= 0x0D)
    || (0x1C <= n <= 0x20)
    || n == 0x85 || n == 0xA0 || n == 0x1680
    || (0x2000 <= n <= 0x200A)
    || n == 0x2028 || n == 0x2029 || n == 0x202F || n == 0x205F || n == 0x3000
  }

  predicate AllSpace(s: string) {
    forall i :: 0 <= i < |s| ==> IsSpace(s[i])
  }

  /** `r` is `s` with its leading whitespace removed. */
  predicate IsLeftStripOf(r: string, s: string) {
    && |r| <= |s| && r == s[|s| - |r|..]
    && AllSpace(s[..|s| - |r|])
    && (r != [] ==> !IsSpace(r[0]))
  }

  /** `r` is `s` with its trailing whitespace removed. */
  predicate IsRightStripOf(r: string, s: string) {
    && |r| <= |s| && r == s[..|r|]
    && AllSpace(s[|r|..])
    && (r != [] ==> !IsSpace(r[|r| - 1]))
  }

  /**
   `r` is a contiguous piece of `s` with only whitespace cut off on either
   side, and it neither starts nor ends with whitespace.
   */
  predicate IsStripOf(r: string, s: string) {
    && (exists a :: 0 <= a <= |s| - |r| && r == s[a..a + |r|] && AllSpace(s[..a]) && AllSpace(s[a + |r|..]))
    && (r != [] ==> !IsSpace(r[0]) && !IsSpace(r[|r| - 1]))
  }

  /** `s.lstrip()`. */
  function StripLeft(s: string): string {
    if s != [] && IsSpace(s[0]) then StripLeft(s[1..]) else s
  }

  /** `s.rstrip()`. */
  function StripRight(s: string): string {
    if s != [] && IsSpace(s[|s| - 1]) then StripRight(s[..|s| - 1]) else s
  }

  /** `s.strip()`. */
  function Strip(s: string): string {
    StripRight(StripLeft(s))
  }

  lemma {:induction false} StripLeftSpec(s: string)
    ensures IsLeftStripOf(StripLeft(s), s)
  {
    if s != [] && IsSpace(s[0]) {
      StripLeftSpec(s[1..]);
      var r := StripLeft(s[1..]);
      assert s[..|s| - |r|] == [s[0]] + s[1..][..|s| - 1 - |r|];
    }
  }

  lemma {:induction false} StripRightSpec(s: string)
    ensures IsRightStripOf(StripRight(s), s)
  {
    if s != [] && IsSpace(s[|s| - 1]) {
      StripRightSpec(s[..|s| - 1]);
      var r := StripRight(s[..|s| - 1]);
      assert s[|r|..] == s[..|s| - 1][|r|..] + [s[|s| - 1]];
    }
  }

  /** What `strip` keeps of a string: whitespace is cut from both ends and only from there. */
  lemma StripSpec(s: string)
    ensures IsStripOf(Strip(s), s)
  {
    var left := StripLeft(s);
    var r := StripRight(left);
    StripLeftSpec(s);
    StripRightSpec(left);
    var a := |s| - |left|;
    assert r == s[a..a + |r|];
    assert s[a + |r|..] == left[|r|..];
  }

  /** `strip()` only removes characters, so a character absent from `s` stays absent. */
  lemma StripKeepsAbsent(s: string, c: char)
    requires c !in s
    ensures c !in Strip(s)
  {
    StripSpec(s);
    var r := Strip(s);
    var a :| 0 <= a <= |s| - |r| && r == s[a..a + |r|] && AllSpace(s[..a]) && AllSpace(s[a + |r|..]);
    forall j | 0 <= j < |r| ensures r[j] != c {
      assert r[j] == s[a + j];
    }
  }

  /**
   The cursor view of a text file: `Readline(lines, i)` is what the
   (i+1)-th call of `readline` returns, and "" once the file is exhausted.
   */
  function Readline(lines: seq<string>, i: nat): (r: string)
    ensures WellFormed(lines) ==> (r == "" <==> |lines| <= i)
  {
    if i < |lines| then lines[i] else ""
  }

  /** What `readline` can actually return before end of file: never "". */
  predicate WellFormed(lines: seq<string>) {
    forall j :: 0 <= j < |lines| ==> lines[j] != ""
  }

  function Join(lines: seq<string>): string {
    if lines == [] then [] else lines[0] + Join(lines[1..])
  }

  /** The length of the first line of `text`, its terminating '\n' included. */
  function LineLength(text: string): (k: nat)
    requires text != []
    ensures 1 <= k <= |text|
    ensures forall i :: 0 <= i < k - 1 ==> text[i] != '\n'
    ensures k < |text| ==> text[k - 1] == '\n'
  {
    if text[0] == '\n' || |text| == 1 then 1 else 1 + LineLength(text[1..])
  }

  /**
   The lines successive `readline` calls return on a text file whose
   newlines are already translated to '\n': each line keeps its '\n',
   the last one may lack it, and none is empty.
   */
  function SplitLines(text: string): (lines: seq<string>)
    ensures Join(lines) == text
    ensures WellFormed(lines)
    ensures forall j, i :: 0 <= j < |lines| && 0 <= i < |lines[j]| - 1 ==> lines[j][i] != '\n'
    ensures forall j :: 0 <= j < |lines| - 1 ==> lines[j][|lines[j]| - 1] == '\n'
    decreases |text|
  {
    if text == [] then []
    else
      var k := LineLength(text);
      var rest := SplitLines(text[k..]);
      var lines := [text[..k]] + rest;
      assert lines[1..] == rest;
      assert text == text[..k] + text[k..];
      lines
  }

}
