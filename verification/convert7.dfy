/**
 The `convert7` encoder (arb_shtrih.py): every character of a record number
 of the 7 database is replaced by its code point written in decimal and
 left-padded with zeros to at least three digits, and the pieces are joined.
 */
module Rn7Digits {

  import opened Decimal
  import opened Wrappers

  /** Python's `ord`: the code point of a character. */
  function Ord(c: char): nat {
    c as int
  }

  /** A character whose code point fits in three decimal digits. */
  predicate Narrow(c: char) {
    Ord(c) < 1000
  }

  predicate AllNarrow(s: string) {
    forall i :: 0 <= i < |s| ==> Narrow(s[i])
  }

  /** The number of characters one input character contributes: max(3, digits of its code point). */
  function Width(c: char): nat {
    var digits := |Str(Ord(c))|;
    if digits > 3 then digits else 3
  }

  /** One character of `convert7` (arb_shtrih.py:68): its code point in decimal, zero-padded to at least three digits. */
  function EncodeChar(c: char): (r: string)
    ensures AllDigits(r)
    ensures |r| == Width(c)
    ensures Parse(r) == Ord(c)
    ensures Narrow(c) ==> |r| == 3
  {
    var digits := Str(Ord(c));
    var r := ZFill(digits, 3);
    assert AllDigits(r) && Parse(r) == Ord(c) by {
      if |digits| < 3 {
        ParseLeadingZeros(3 - |digits|, digits);
      }
      ParseStr(Ord(c));
    }
    assert Narrow(c) ==> |digits| <= 3 by {
      if Narrow(c) {
        StrLengthBound(Ord(c), 3);
      }
    }
    r
  }

  /** `convert7` (arb_shtrih.py:62-68): the encodings of the characters of `s`, joined in order. */
  function Convert7(s: string): (r: string)
    ensures s == [] ==> r == []
    ensures AllDigits(r)
    ensures |r| >= 3 * |s|
    ensures AllNarrow(s) ==> |r| == 3 * |s|
  {
    if s == [] then [] else EncodeChar(s[0]) + Convert7(s[1..])
  }

  /** `convert7` is a homomorphism from concatenation to concatenation. */
  lemma {:induction false} Convert7Append(a: string, b: string)
    ensures Convert7(a + b) == Convert7(a) + Convert7(b)
  {
    if a != [] {
      assert (a + b)[1..] == a[1..] + b;
      Convert7Append(a[1..], b);
    } else {
      assert a + b == b;
    }
  }

  /**
   The inverse of `convert7` on strings of narrow characters: split into
   three-digit blocks and read each block as a code point.
   */
  function Decode7(d: string): (r: Option<string>)
    ensures r.Some? ==> AllNarrow(r.value) && |d| == 3 * |r.value|
    decreases |d|
  {
    if d == [] then Some([])
    else if |d| < 3 || !AllDigits(d[..3]) then None
    else
      match Decode7(d[3..])
      case None => None
      case Some(rest) =>
        var v := Parse(d[..3]);
        assert Pow10(3) == 1000;
        Some([v as char] + rest)
  }

  /** Every narrow string is recovered from its encoding. */
  lemma {:induction false} Convert7RoundTrip(s: string)
    requires AllNarrow(s)
    ensures Decode7(Convert7(s)) == Some(s)
  {
    if s != [] {
      var d := Convert7(s);
      var head := EncodeChar(s[0]);
      assert d[..3] == head;
      assert d[3..] == Convert7(s[1..]);
      Convert7RoundTrip(s[1..]);
      assert (Parse(head) as char) == s[0];
      assert s == [s[0]] + s[1..];
    }
  }

  /** Whatever `Decode7` accepts is exactly the encoding of what it returns. */
  lemma {:induction false} Decode7Sound(d: string)
    requires Decode7(d).Some?
    ensures Convert7(Decode7(d).value) == d
    decreases |d|
  {
    if d != [] {
      var block := d[..3];
      var v := Parse(block);
      assert Pow10(3) == 1000;
      var c := v as char;
      Decode7Sound(d[3..]);
      var s := Decode7(d).value;
      assert s == [c] + Decode7(d[3..]).value;
      assert s[0] == c && s[1..] == Decode7(d[3..]).value;
      var e := EncodeChar(c);
      assert |e| == 3 && Parse(e) == v;
      ParseInjective(e, block);
      assert Convert7(s) == e + Convert7(s[1..]);
      assert d == block + d[3..];
    }
  }

  /** `Decode7` accepts `d` with result `s` exactly when `s` is narrow and encodes to `d`. */
  lemma Decode7Iff(d: string, s: string)
    ensures Decode7(d) == Some(s) <==> AllNarrow(s) && Convert7(s) == d
  {
    if Decode7(d) == Some(s) {
      Decode7Sound(d);
    }
    if AllNarrow(s) && Convert7(s) == d {
      Convert7RoundTrip(s);
    }
  }

  /** On narrow strings `convert7` is injective. */
  lemma Convert7Injective(a: string, b: string)
    requires AllNarrow(a) && AllNarrow(b)
    requires Convert7(a) == Convert7(b)
    ensures a == b
  {
    Convert7RoundTrip(a);
    Convert7RoundTrip(b);
  }

  /**
   Without the narrow restriction injectivity fails, already on Cyrillic:
   "gи" (code points 103, 1080) and "ЇP" (1031, 80) both encode to "1031080".
   */
  lemma Convert7CollidesAbove999()
    ensures Convert7([103 as char, 1080 as char]) == "1031080"
    ensures Convert7([1031 as char, 80 as char]) == "1031080"
    ensures [103 as char, 1080 as char] != [1031 as char, 80 as char]
  {
    var g, i, yi, p := 103 as char, 1080 as char, 1031 as char, 80 as char;
    assert Str(1) == "1";
    assert Str(10) == "10";
    assert Str(103) == "103";
    assert Str(108) == "108";
    assert Str(1080) == "1080";
    assert Str(1031) == "1031";
    assert Str(8) == "8";
    assert Str(80) == "80";
    assert EncodeChar(g) == "103";
    assert EncodeChar(i) == "1080";
    assert EncodeChar(yi) == "1031";
    assert EncodeChar(p) == "080";
  }

}
