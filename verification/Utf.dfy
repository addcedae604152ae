/**
  `toUtf8` and `toUtf16`: the conversions between the bytes on the pipe and the UTF-16 code
  units of a `std::wstring`. UTF-8 as in section 4 of RFC 3629, UTF-16 as in section 2 of
  RFC 2781. As on Windows without the error flags, neither conversion fails: what is not
  well-formed becomes U+FFFD.
 */
module Utf {
  import opened Splitting

  type byte = b: int | 0 <= b < 0x100
  type wchar = u: int | 0 <= u < 0x1_0000
  type bytes = seq<byte>
  type wstring = seq<wchar>
  /** A Unicode scalar value: a code point that is no surrogate. */
  type scalar = c: int | 0 <= c < 0xD800 || 0xE000 <= c < 0x11_0000

  const REPLACEMENT: scalar := 0xFFFD
  const NEWLINE: byte := 0x0A

  predicate IsHigh(u: int) { 0xD800 <= u < 0xDC00 }
  predicate IsLow(u: int) { 0xDC00 <= u < 0xE000 }
  predicate IsSurrogate(u: int) { 0xD800 <= u < 0xE000 }

  // ---------------------------------------------------------------- UTF-8

  predicate IsTrail(b: byte) { 0x80 <= b < 0xC0 }

  predicate IsLead3(a: byte, b: byte) {
    || (a == 0xE0 && 0xA0 <= b < 0xC0)
    || (a == 0xED && 0x80 <= b < 0xA0)
    || (0xE1 <= a < 0xF0 && a != 0xED && IsTrail(b))
  }

  predicate IsLead4(a: byte, b: byte) {
    || (a == 0xF0 && 0x90 <= b < 0xC0)
    || (0xF1 <= a < 0xF4 && IsTrail(b))
    || (a == 0xF4 && 0x80 <= b < 0x90)
  }

  /** The length of the well-formed sequence `s` begins with, 0 if it begins with none. */
  function SequenceLength(s: bytes): (n: nat)
    requires s != []
    ensures n <= 4 && n <= |s|
  {
    if s[0] < 0x80 then 1
    else if |s| >= 2 && 0xC2 <= s[0] < 0xE0 && IsTrail(s[1]) then 2
    else if |s| >= 3 && IsLead3(s[0], s[1]) && IsTrail(s[2]) then 3
    else if |s| >= 4 && IsLead4(s[0], s[1]) && IsTrail(s[2]) && IsTrail(s[3]) then 4
    else 0
  }

  /** The bytes read as one character; a byte that begins no sequence is one on its own. */
  function HeadLength(s: bytes): (n: nat)
    requires s != []
    ensures 1 <= n <= |s|
  {
    if SequenceLength(s) == 0 then 1 else SequenceLength(s)
  }

  function HeadScalar(s: bytes): (c: scalar)
    requires s != []
  {
    if SequenceLength(s) == 0 then REPLACEMENT else ScalarAt(s)
  }

  /** Appends the six payload bits of a trailing byte. */
  function Push(x: int, b: int): int { x * 0x40 + (b - 0x80) }

  function ScalarAt(s: bytes): (c: scalar)
    requires s != [] && SequenceLength(s) > 0
  {
    var lead: int := s[0];
    match SequenceLength(s)
    case 1 => lead
    case 2 => Push(lead - 0xC0, s[1])
    case 3 => Push(Push(lead - 0xE0, s[1]), s[2])
    case _ => Push(Push(Push(lead - 0xF0, s[1]), s[2]), s[3])
  }

  function Trail(x: nat): byte { 0x80 + x % 0x40 }

  function Utf8(c: scalar): (s: bytes)
    ensures 1 <= |s| <= 4
  {
    var c1 := c / 0x40;
    var c2 := c1 / 0x40;
    if c < 0x80 then [c]
    else if c < 0x800 then [0xC0 + c1, Trail(c)]
    else if c < 0x1_0000 then [0xE0 + c2, Trail(c1), Trail(c)]
    else [0xF0 + c2 / 0x40, Trail(c2), Trail(c1), Trail(c)]
  }

  // --------------------------------------------------------------- UTF-16

  function Utf16(c: scalar): (w: wstring)
    ensures 1 <= |w| <= 2
  {
    if c < 0x1_0000 then [c]
    else [0xD800 + (c - 0x1_0000) / 0x400, 0xDC00 + (c - 0x1_0000) % 0x400]
  }

  predicate BeginsWithPair(w: wstring) {
    |w| >= 2 && IsHigh(w[0]) && IsLow(w[1])
  }

  /** The number of code units of the first character; a lone surrogate is one. */
  function UnitLength(w: wstring): (n: nat)
    requires w != []
    ensures 1 <= n <= |w|
  {
    if BeginsWithPair(w) then 2 else 1
  }

  function UnitScalar(w: wstring): (c: scalar)
    requires w != []
  {
    if BeginsWithPair(w) then 0x1_0000 + (w[0] - 0xD800) * 0x400 + (w[1] - 0xDC00)
    else if IsSurrogate(w[0]) then REPLACEMENT
    else w[0]
  }

  // ---------------------------------------------------- whole conversions

  /** `toUtf16` */
  function Decode(s: bytes): (w: wstring)
    decreases |s|
  {
    if s == [] then [] else Utf16(HeadScalar(s)) + Decode(s[HeadLength(s)..])
  }

  /** `toUtf8` */
  function Encode(w: wstring): (s: bytes)
    decreases |w|
  {
    if w == [] then [] else Utf8(UnitScalar(w)) + Encode(w[UnitLength(w)..])
  }

  predicate WellFormed8(s: bytes)
    decreases |s|
  {
    s == [] || (SequenceLength(s) > 0 && WellFormed8(s[SequenceLength(s)..]))
  }

  predicate WellFormed16(w: wstring)
    decreases |w|
  {
    w == [] || ((IsSurrogate(w[0]) ==> BeginsWithPair(w)) && WellFormed16(w[UnitLength(w)..]))
  }

  // ------------------------------------------------- single characters

  lemma PushTrail(x: nat)
    ensures Push(x / 0x40, Trail(x)) == x
  {
  }

  lemma Utf8Inverse(c: scalar, rest: bytes)
    ensures SequenceLength(Utf8(c) + rest) == |Utf8(c)|
    ensures ScalarAt(Utf8(c) + rest) == c
  {
    var u := Utf8(c);
    var s := u + rest;
    assert s[..|u|] == u;
    assert forall i :: 0 <= i < |u| ==> s[i] == u[i];
    PushTrail(c);
    PushTrail(c / 0x40);
    PushTrail(c / 0x40 / 0x40);
  }

  lemma PushSplits(x: nat, b: byte)
    requires IsTrail(b)
    ensures Push(x, b) / 0x40 == x && Trail(Push(x, b)) == b
  {
  }

  lemma SequenceInverse(s: bytes)
    requires s != [] && SequenceLength(s) > 0
    ensures Utf8(ScalarAt(s)) == s[..SequenceLength(s)]
  {
    var n := SequenceLength(s);
    var lead: int := s[0];
    if n == 2 {
      PushSplits(lead - 0xC0, s[1]);
    } else if n == 3 {
      PushSplits(lead - 0xE0, s[1]);
      PushSplits(Push(lead - 0xE0, s[1]), s[2]);
    } else if n == 4 {
      PushSplits(lead - 0xF0, s[1]);
      PushSplits(Push(lead - 0xF0, s[1]), s[2]);
      PushSplits(Push(Push(lead - 0xF0, s[1]), s[2]), s[3]);
    }
  }

  lemma Utf16Inverse(c: scalar, rest: wstring)
    ensures var w := Utf16(c) + rest; UnitLength(w) == |Utf16(c)| && UnitScalar(w) == c
    ensures var w := Utf16(c) + rest; IsSurrogate(w[0]) ==> BeginsWithPair(w)
  {
  }

  lemma UnitInverse(w: wstring)
    requires w != []
    ensures IsSurrogate(w[0]) && !BeginsWithPair(w) ==> w[0] != REPLACEMENT
    ensures !(IsSurrogate(w[0]) && !BeginsWithPair(w)) ==> Utf16(UnitScalar(w)) == w[..UnitLength(w)]
  {
  }

  /** Examples of section 7 of RFC 3629, and the UTF-16 of the last one. */
  lemma Examples()
    ensures Utf8(0x41) == [0x41] && Utf8(0x391) == [0xCE, 0x91] && Utf8(0x2262) == [0xE2, 0x89, 0xA2]
    ensures Utf8(0xD55C) == [0xED, 0x95, 0x9C] && Utf8(0x65E5) == [0xE6, 0x97, 0xA5]
    ensures Utf8(0x233B4) == [0xF0, 0xA3, 0x8E, 0xB4] && Utf16(0x233B4) == [0xD84C, 0xDFB4]
  {
  }

  /** What is not well-formed becomes U+FFFD: a byte that begins no sequence, and a lone surrogate. */
  lemma MalformedIsReplaced(s: bytes, w: wstring)
    ensures s != [] && SequenceLength(s) == 0 ==> Decode(s) == [0xFFFD] + Decode(s[1..])
    ensures w != [] && 0xD800 <= w[0] < 0xE000 && !BeginsWithPair(w) ==>
              Encode(w) == [0xEF, 0xBF, 0xBD] + Encode(w[1..])
  {
    assert Utf8(0xFFFD) == [0xEF, 0xBF, 0xBD];
  }

  // ------------------------------------------------------ round trips

  /** What Windows makes of lone surrogates. */
  function Scrub(w: wstring): (v: wstring)
    decreases |w|
  {
    if w == [] then [] else Utf16(UnitScalar(w)) + Scrub(w[UnitLength(w)..])
  }

  lemma {:induction false} ScrubIdentity(w: wstring)
    ensures Scrub(w) == w <==> WellFormed16(w)
    decreases |w|
  {
    if w != [] {
      var n, rest := UnitLength(w), w[UnitLength(w)..];
      ScrubIdentity(rest);
      UnitInverse(w);
      assert w == w[..n] + rest;
      if IsSurrogate(w[0]) && !BeginsWithPair(w) {
        assert Scrub(w)[0] == REPLACEMENT;
      } else if Scrub(w) == w {
        assert w[n..] == Scrub(rest);
      }
    }
  }

  lemma {:induction false} DecodeOfEncode(w: wstring)
    ensures Decode(Encode(w)) == Scrub(w)
    decreases |w|
  {
    if w != [] {
      var c, rest := UnitScalar(w), w[UnitLength(w)..];
      DecodeOfEncode(rest);
      Utf8Inverse(c, Encode(rest));
      assert Encode(w)[|Utf8(c)|..] == Encode(rest);
    }
  }

  /** Text survives the trip over the pipe exactly when it has no lone surrogates. */
  lemma TextRoundTrip(w: wstring)
    ensures Decode(Encode(w)) == w <==> WellFormed16(w)
  {
    DecodeOfEncode(w);
    ScrubIdentity(w);
  }

  lemma {:induction false} EncodeIsWellFormed(w: wstring)
    ensures WellFormed8(Encode(w))
    decreases |w|
  {
    if w != [] {
      var c, rest := UnitScalar(w), w[UnitLength(w)..];
      EncodeIsWellFormed(rest);
      Utf8Inverse(c, Encode(rest));
      assert Encode(w)[|Utf8(c)|..] == Encode(rest);
    }
  }

  lemma {:induction false} DecodeIsWellFormed(s: bytes)
    ensures WellFormed16(Decode(s))
    decreases |s|
  {
    if s != [] {
      var c, rest := HeadScalar(s), s[HeadLength(s)..];
      DecodeIsWellFormed(rest);
      Utf16Inverse(c, Decode(rest));
      assert Decode(s) == Utf16(c) + Decode(rest);
      assert Decode(s)[|Utf16(c)|..] == Decode(rest);
    }
  }

  lemma EncodeCharacter(c: scalar, rest: wstring)
    ensures Encode(Utf16(c) + rest) == Utf8(c) + Encode(rest)
  {
    Utf16Inverse(c, rest);
    assert (Utf16(c) + rest)[|Utf16(c)|..] == rest;
  }

  lemma FirstCharacter(s: bytes) returns (c: scalar, rest: bytes)
    requires s != [] && WellFormed8(s)
    ensures s == Utf8(c) + rest && Decode(s) == Utf16(c) + Decode(rest)
    ensures WellFormed8(rest) && |rest| < |s|
  {
    c, rest := ScalarAt(s), s[SequenceLength(s)..];
    SequenceInverse(s);
  }

  lemma {:induction false} EncodeOfDecode(s: bytes)
    requires WellFormed8(s)
    ensures Encode(Decode(s)) == s
    decreases |s|
  {
    if s != [] {
      var c, rest := FirstCharacter(s);
      EncodeOfDecode(rest);
      EncodeCharacter(c, Decode(rest));
    }
  }

  /** Bytes survive being read as text exactly when they are well-formed UTF-8. */
  lemma BytesRoundTrip(s: bytes)
    ensures Encode(Decode(s)) == s <==> WellFormed8(s)
  {
    EncodeIsWellFormed(Decode(s));
    if WellFormed8(s) {
      EncodeOfDecode(s);
    }
  }

  // -------------------------------------------- separators and conversion

  /** An ASCII byte ends every sequence before it, well-formed or not. */
  lemma HeadStopsAtAscii(a: bytes, x: byte, b: bytes)
    requires a != [] && x < 0x80
    ensures var s := a + [x] + b;
            HeadLength(s) == HeadLength(a) && HeadScalar(s) == HeadScalar(a) &&
            s[HeadLength(a)..] == a[HeadLength(a)..] + [x] + b
  {
    var s := a + [x] + b;
    assert s[|a|] == x;
    assert forall i :: 0 <= i < |a| ==> s[i] == a[i];
  }

  /** Decoding splits at every ASCII byte, for all bytes. */
  lemma {:induction false} DecodeAround(a: bytes, x: byte, b: bytes)
    requires x < 0x80
    ensures Decode(a + [x] + b) == Decode(a) + [x] + Decode(b)
    decreases |a|
  {
    if a == [] {
      var s := [x] + b;
      assert a + [x] + b == s && s[1..] == b;
    } else {
      HeadStopsAtAscii(a, x, b);
      var rest := a[HeadLength(a)..];
      DecodeAround(rest, x, b);
      Regroup(Utf16(HeadScalar(a)), Decode(rest), [x], Decode(b));
    }
  }

  lemma HeadAscii(s: bytes, x: byte)
    requires s != [] && x < 0x80
    ensures x in Utf16(HeadScalar(s)) <==> x in s[..HeadLength(s)]
  {
  }

  /** No conversion makes or loses an ASCII character. */
  lemma {:induction false} DecodeKeepsAscii(s: bytes, x: byte)
    requires x < 0x80
    ensures x in Decode(s) <==> x in s
    decreases |s|
  {
    if s != [] {
      HeadAscii(s, x);
      var rest := s[HeadLength(s)..];
      DecodeKeepsAscii(rest, x);
      assert Decode(s) == Utf16(HeadScalar(s)) + Decode(rest);
      InParts<byte>(s, HeadLength(s), x);
    }
  }

  lemma HeadStopsAtUnit(a: wstring, x: wchar, b: wstring)
    requires a != [] && !IsSurrogate(x)
    ensures var s := a + [x] + b;
            UnitLength(s) == UnitLength(a) && UnitScalar(s) == UnitScalar(a) &&
            BeginsWithPair(s) == BeginsWithPair(a) &&
            s[UnitLength(a)..] == a[UnitLength(a)..] + [x] + b
  {
    assert (a + [x] + b)[|a|] == x;
  }

  lemma {:induction false} EncodeAround(a: wstring, x: wchar, b: wstring)
    requires !IsSurrogate(x)
    ensures Encode(a + [x] + b) == Encode(a) + Utf8(x) + Encode(b)
    decreases |a|
  {
    if a == [] {
      var s := [x] + b;
      assert a + [x] + b == s && s[1..] == b;
    } else {
      HeadStopsAtUnit(a, x, b);
      var rest := a[UnitLength(a)..];
      EncodeAround(rest, x, b);
      Regroup(Utf8(UnitScalar(a)), Encode(rest), Utf8(x), Encode(b));
    }
  }

  lemma {:induction false} WellFormedAround(a: wstring, x: wchar, b: wstring)
    requires !IsSurrogate(x)
    ensures WellFormed16(a + [x] + b) <==> WellFormed16(a) && WellFormed16(b)
    decreases |a|
  {
    if a == [] {
      var s := [x] + b;
      assert a + [x] + b == s && s[1..] == b;
    } else {
      HeadStopsAtUnit(a, x, b);
      WellFormedAround(a[UnitLength(a)..], x, b);
    }
  }

  lemma {:induction false} ScrubKeepsAscii(w: wstring, x: byte)
    requires x < 0x80
    ensures x in Scrub(w) <==> x in w
    decreases |w|
  {
    if w != [] {
      var n := UnitLength(w);
      ScrubKeepsAscii(w[n..], x);
      UnitInverse(w);
      InParts<wchar>(w, n, x);
    }
  }

  function DecodeAll(parts: seq<bytes>): (texts: seq<wstring>)
    ensures |texts| == |parts|
    ensures forall i :: 0 <= i < |parts| ==> texts[i] == Decode(parts[i])
  {
    seq(|parts|, i requires 0 <= i < |parts| => Decode(parts[i]))
  }

  lemma DecodeAllStep(first: bytes, rest: seq<bytes>)
    ensures DecodeAll([first] + rest) == [Decode(first)] + DecodeAll(rest)
  {
  }

  /** The pieces of a byte stream between line feeds; the last one is unterminated. */
  function BytePieces(s: bytes): (pieces: seq<bytes>)
    ensures pieces != []
  {
    Split<byte>(s, NEWLINE)
  }

  function TextPieces(w: wstring): (pieces: seq<wstring>)
    ensures pieces != []
  {
    Split<wchar>(w, NEWLINE)
  }

  /**
    Splitting the bytes at 0x0A and decoding each piece, as `readLine` does, is decoding the
    whole stream and splitting the text at U+000A, for well-formed and malformed streams.
   */
  lemma {:induction false} SplittingCommutesWithDecoding(s: bytes)
    ensures DecodeAll(BytePieces(s)) == TextPieces(Decode(s))
    decreases |s|
  {
    if NEWLINE !in s {
      SplitFree<byte>(s, NEWLINE);
      DecodeKeepsAscii(s, NEWLINE);
      SplitFree<wchar>(Decode(s), NEWLINE);
    } else {
      var head: bytes, rest: bytes := SplitStep<byte>(s, NEWLINE);
      SplittingCommutesWithDecoding(rest);
      DecodeKeepsAscii(head, NEWLINE);
      DecodeAround(head, NEWLINE, rest);
      SplitFirst<wchar>(Decode(head), NEWLINE, Decode(rest));
      DecodeAllStep(head, BytePieces(rest));
    }
  }
}
