/**
 * The UTF-8 helpers of NimbleNetDataVariable: the continuation-byte test, the
 * lenient one-character decoder that advances a read cursor, and the encoder
 * that writes one code point through a write cursor.
 *
 * A `std::string` or C string is a sequence of bytes. The decoder reads ahead
 * through a `const char *` into a NUL-terminated buffer; here the buffer is the
 * sequence `s` followed by its terminator, so every index at or past `|s|` reads
 * as the byte 0 (see `ByteAt`).
 */
module Utf8 {

  /** An `unsigned char`. */
  type Byte = bv8

  /** A `char32_t` holding a code point. */
  type CodePoint = bv32

  /** U+FFFD, what the decoder yields for a byte it cannot decode. */
  const ReplacementChar: CodePoint := 0xFFFD

  /** The first value that is not a Unicode code point. */
  const CodePointLimit: CodePoint := 0x11_0000

  /** `is_utf8_continuation`: the top two bits of the byte are 10. */
  function IsUtf8Continuation(b: Byte): (r: bool)
    ensures r <==> 0x80 <= b <= 0xBF
  {
    b & 0xC0 == 0x80
  }

  /** The byte at index `k` of the NUL-terminated buffer holding `s`. */
  function ByteAt(s: seq<Byte>, k: nat): Byte
  {
    if k < |s| then s[k] else 0
  }

  /** What `get_next_utf8_char` returns, and how far it moves the cursor. */
  datatype Decoded = Decoded(codePoint: CodePoint, width: nat)

  /**
   * `get_next_utf8_char` with the cursor at index `p` of `s`: decodes one
   * character and gives the cursor's advance. Index `|s|` is the terminator.
   * The decoder is lenient: it takes overlong forms, surrogates and 4-byte
   * sequences above U+10FFFF as they come, and answers anything else that does
   * not start with ASCII by U+FFFD with an advance of one byte.
   */
  function DecodeAt(s: seq<Byte>, p: nat): (d: Decoded)
    requires p <= |s|
    ensures d.width == WidthAt(s, p)
  {
    DecodeBytes(ByteAt(s, p), ByteAt(s, p + 1), ByteAt(s, p + 2), ByteAt(s, p + 3))
  }

  /**
   * What the decoder's answer says about the bytes: the bytes it steps over
   * after the first are continuation bytes, ASCII decodes to itself, any other
   * one-byte step is U+FFFD, a longer step starts at a lead byte, and the code
   * point fits in 21 bits.
   */
  lemma DecodeAtFacts(s: seq<Byte>, p: nat)
    requires p <= |s|
    ensures var d := DecodeAt(s, p);
            && (forall k :: p < k < p + d.width ==> IsUtf8Continuation(ByteAt(s, k)))
            && (ByteAt(s, p) < 0x80 ==> d == Decoded(ByteAt(s, p) as CodePoint, 1))
            && (0x80 <= ByteAt(s, p) && d.width == 1 ==> d.codePoint == ReplacementChar)
            && (d.width > 1 ==> 0xC0 <= ByteAt(s, p) < 0xF8)
            && d.codePoint < 0x20_0000
  {
  }

  /** The decoder's case analysis on the byte under the cursor and the three after it. */
  function DecodeBytes(b0: Byte, b1: Byte, b2: Byte, b3: Byte): Decoded
  {
    if b0 < 0x80 then
      Decoded(b0 as CodePoint, 1)
    else if b0 & 0xE0 == 0xC0 && IsUtf8Continuation(b1) then
      Decoded(((b0 as CodePoint & 0x1F) << 6) | (b1 as CodePoint & 0x3F), 2)
    else if b0 & 0xF0 == 0xE0 && IsUtf8Continuation(b1) && IsUtf8Continuation(b2) then
      Decoded(((b0 as CodePoint & 0x0F) << 12) | ((b1 as CodePoint & 0x3F) << 6)
              | (b2 as CodePoint & 0x3F), 3)
    else if b0 & 0xF8 == 0xF0 && IsUtf8Continuation(b1) && IsUtf8Continuation(b2)
            && IsUtf8Continuation(b3) then
      Decoded(((b0 as CodePoint & 0x07) << 18) | ((b1 as CodePoint & 0x3F) << 12)
              | ((b2 as CodePoint & 0x3F) << 6) | (b3 as CodePoint & 0x3F), 4)
    else
      Decoded(ReplacementChar, 1)
  }

  /**
   * The decoder falls back to U+FFFD with a one-byte advance exactly when the
   * byte under the cursor is not ASCII and is not a 2-, 3- or 4-byte lead byte
   * followed by as many continuation bytes as it announces.
   */
  predicate WellFormedLeadAt(s: seq<Byte>, p: nat)
  {
    var b0 := ByteAt(s, p);
    || (0xC0 <= b0 <= 0xDF && IsUtf8Continuation(ByteAt(s, p + 1)))
    || (0xE0 <= b0 <= 0xEF && IsUtf8Continuation(ByteAt(s, p + 1))
        && IsUtf8Continuation(ByteAt(s, p + 2)))
    || (0xF0 <= b0 <= 0xF7 && IsUtf8Continuation(ByteAt(s, p + 1))
        && IsUtf8Continuation(ByteAt(s, p + 2)) && IsUtf8Continuation(ByteAt(s, p + 3)))
  }

  /** How far `get_next_utf8_char` moves the cursor: the length a well-formed lead byte announces, one byte otherwise. */
  function WidthAt(s: seq<Byte>, p: nat): (w: nat)
    ensures 1 <= w <= 4
    ensures p < |s| ==> p + w <= |s|
    ensures forall k :: p < k < p + w ==> IsUtf8Continuation(ByteAt(s, k))
  {
    if !WellFormedLeadAt(s, p) then 1
    else if ByteAt(s, p) < 0xE0 then 2
    else if ByteAt(s, p) < 0xF0 then 3
    else 4
  }

  /** The decoder answers U+FFFD with a one-byte advance to a non-ASCII byte exactly when it is not a well-formed lead. */
  lemma DecodeFallback(s: seq<Byte>, p: nat)
    requires p <= |s|
    ensures 0x80 <= ByteAt(s, p) && !WellFormedLeadAt(s, p)
            <==> DecodeAt(s, p) == Decoded(ReplacementChar, 1) && 0x80 <= ByteAt(s, p)
  {
  }

  /** `append_utf8_char`'s output: the bytes it writes for `ch` (none at or above 0x110000). */
  function EncodeUtf8(ch: CodePoint): (r: seq<Byte>)
    ensures |r| == (if ch < 0x80 then 1 else if ch < 0x800 then 2
                    else if ch < 0x1_0000 then 3 else if ch < CodePointLimit then 4 else 0)
    ensures |r| > 0 ==> !IsUtf8Continuation(r[0])
    ensures forall k :: 0 < k < |r| ==> IsUtf8Continuation(r[k])
    ensures ch != 0 ==> forall k :: 0 <= k < |r| ==> r[k] != 0
  {
    if ch < 0x80 then
      [ch as Byte]
    else if ch < 0x800 then
      [(0xC0 | (ch >> 6)) as Byte, (0x80 | (ch & 0x3F)) as Byte]
    else if ch < 0x1_0000 then
      [(0xE0 | (ch >> 12)) as Byte, (0x80 | ((ch >> 6) & 0x3F)) as Byte,
       (0x80 | (ch & 0x3F)) as Byte]
    else if ch < CodePointLimit then
      [(0xF0 | (ch >> 18)) as Byte, (0x80 | ((ch >> 12) & 0x3F)) as Byte,
       (0x80 | ((ch >> 6) & 0x3F)) as Byte, (0x80 | (ch & 0x3F)) as Byte]
    else
      []
  }

  /** Decoding at index `i` is decoding the suffix that starts there. */
  lemma DecodeSuffix(s: seq<Byte>, i: nat)
    requires i <= |s|
    ensures DecodeAt(s[i..], 0) == DecodeAt(s, i)
  {
    assert ByteAt(s[i..], 0) == ByteAt(s, i) && ByteAt(s[i..], 1) == ByteAt(s, i + 1);
    assert ByteAt(s[i..], 2) == ByteAt(s, i + 2) && ByteAt(s[i..], 3) == ByteAt(s, i + 3);
  }

  /** The decoder at index `|p| + i` of `p + s` reads only `s`. */
  lemma DecodeShift(p: seq<Byte>, s: seq<Byte>, i: nat)
    requires i <= |s|
    ensures DecodeAt(p + s, |p| + i) == DecodeAt(s, i)
  {
    forall k: nat ensures ByteAt(p + s, |p| + k) == ByteAt(s, k) {
    }
  }

  /**
   * Round trip: decoding the bytes written for a code point gives back that
   * code point and advances past exactly those bytes, whatever follows them.
   */
  lemma DecodeEncode(ch: CodePoint, rest: seq<Byte>)
    requires ch < CodePointLimit
    ensures DecodeAt(EncodeUtf8(ch) + rest, 0) == Decoded(ch, |EncodeUtf8(ch)|)
  {
    if ch < 0x80 {
      assert ByteAt(EncodeUtf8(ch) + rest, 0) == ch as Byte;
    } else if ch < 0x800 {
      DecodeEncodeTwo(ch, rest);
    } else if ch < 0x1_0000 {
      DecodeEncodeThree(ch, rest);
    } else {
      DecodeEncodeFour(ch, rest);
    }
  }

  lemma DecodeEncodeTwo(ch: CodePoint, rest: seq<Byte>)
    requires 0x80 <= ch < 0x800
    ensures DecodeAt(EncodeUtf8(ch) + rest, 0) == Decoded(ch, 2)
  {
    var e := EncodeUtf8(ch);
    var s := e + rest;
    assert ByteAt(s, 0) == e[0] && ByteAt(s, 1) == e[1];
    TwoByteRoundTrip(ch, ByteAt(s, 2), ByteAt(s, 3));
  }

  lemma DecodeEncodeThree(ch: CodePoint, rest: seq<Byte>)
    requires 0x800 <= ch < 0x1_0000
    ensures DecodeAt(EncodeUtf8(ch) + rest, 0) == Decoded(ch, 3)
  {
    var e := EncodeUtf8(ch);
    var s := e + rest;
    assert ByteAt(s, 0) == e[0] && ByteAt(s, 1) == e[1] && ByteAt(s, 2) == e[2];
    ThreeByteRoundTrip(ch, ByteAt(s, 3));
  }

  lemma DecodeEncodeFour(ch: CodePoint, rest: seq<Byte>)
    requires 0x1_0000 <= ch < CodePointLimit
    ensures DecodeAt(EncodeUtf8(ch) + rest, 0) == Decoded(ch, 4)
  {
    var e := EncodeUtf8(ch);
    var s := e + rest;
    assert ByteAt(s, 0) == e[0] && ByteAt(s, 1) == e[1] && ByteAt(s, 2) == e[2] && ByteAt(s, 3) == e[3];
    FourByteRoundTrip(ch);
  }

  lemma TwoByteRoundTrip(ch: CodePoint, b2: Byte, b3: Byte)
    requires 0x80 <= ch < 0x800
    ensures DecodeBytes((0xC0 | (ch >> 6)) as Byte, (0x80 | (ch & 0x3F)) as Byte, b2, b3)
            == Decoded(ch, 2)
  {
  }

  lemma ThreeByteRoundTrip(ch: CodePoint, b3: Byte)
    requires 0x800 <= ch < 0x1_0000
    ensures DecodeBytes((0xE0 | (ch >> 12)) as Byte, (0x80 | ((ch >> 6) & 0x3F)) as Byte,
                        (0x80 | (ch & 0x3F)) as Byte, b3) == Decoded(ch, 3)
  {
  }

  lemma FourByteRoundTrip(ch: CodePoint)
    requires 0x1_0000 <= ch < CodePointLimit
    ensures DecodeBytes((0xF0 | (ch >> 18)) as Byte, (0x80 | ((ch >> 12) & 0x3F)) as Byte,
                        (0x80 | ((ch >> 6) & 0x3F)) as Byte, (0x80 | (ch & 0x3F)) as Byte)
            == Decoded(ch, 4)
  {
  }

  /**
   * The other direction: when the decoder's advance is the width the encoder
   * gives its result, the decoded bytes are exactly the encoder's output, so a
   * shortest-form sequence is read back unchanged.
   */
  lemma EncodeDecode(s: seq<Byte>, p: nat)
    requires p < |s|
    ensures var d := DecodeAt(s, p);
            |EncodeUtf8(d.codePoint)| == d.width ==> EncodeUtf8(d.codePoint) == s[p..p + d.width]
  {
    DecodeWindow(s, p);
    WindowDecodeEncode(ByteAt(s, p), ByteAt(s, p + 1), ByteAt(s, p + 2), ByteAt(s, p + 3));
  }

  /** The decoder reads the byte under the cursor and the three after it, and advances over a prefix of them. */
  lemma DecodeWindow(s: seq<Byte>, p: nat)
    requires p < |s|
    ensures var window := [ByteAt(s, p), ByteAt(s, p + 1), ByteAt(s, p + 2), ByteAt(s, p + 3)];
            && DecodeAt(s, p) == DecodeBytes(window[0], window[1], window[2], window[3])
            && s[p..p + DecodeAt(s, p).width] == window[..DecodeAt(s, p).width]
  {
    var w := DecodeAt(s, p).width;
    var window := [ByteAt(s, p), ByteAt(s, p + 1), ByteAt(s, p + 2), ByteAt(s, p + 3)];
    if w == 1 {
      assert s[p..p + 1] == [s[p]] && window[..1] == [window[0]];
    } else if w == 2 {
      assert s[p..p + 2] == [s[p], s[p + 1]] && window[..2] == [window[0], window[1]];
    } else if w == 3 {
      assert s[p..p + 3] == [s[p], s[p + 1], s[p + 2]] && window[..3] == [window[0], window[1], window[2]];
    } else {
      assert s[p..p + 4] == [s[p], s[p + 1], s[p + 2], s[p + 3]] && window[..4] == window;
    }
  }

  lemma WindowDecodeEncode(b0: Byte, b1: Byte, b2: Byte, b3: Byte)
    ensures var d := DecodeBytes(b0, b1, b2, b3);
            |EncodeUtf8(d.codePoint)| == d.width ==> EncodeUtf8(d.codePoint) == [b0, b1, b2, b3][..d.width]
  {
    var d := DecodeBytes(b0, b1, b2, b3);
    if d.width == 1 {
      OneByteDecodeEncode(b0, b1, b2, b3);
      assert [b0, b1, b2, b3][..1] == [b0];
    } else if d.width == 2 {
      TwoByteDecodeEncode(b0, b1, b2, b3);
      assert [b0, b1, b2, b3][..2] == [b0, b1];
    } else if d.width == 3 {
      ThreeByteDecodeEncode(b0, b1, b2, b3);
      assert [b0, b1, b2, b3][..3] == [b0, b1, b2];
    } else {
      FourByteDecodeEncode(b0, b1, b2, b3);
      assert [b0, b1, b2, b3][..4] == [b0, b1, b2, b3];
    }
  }

  lemma OneByteDecodeEncode(b0: Byte, b1: Byte, b2: Byte, b3: Byte)
    requires DecodeBytes(b0, b1, b2, b3).width == 1
    ensures var ch := DecodeBytes(b0, b1, b2, b3).codePoint;
            |EncodeUtf8(ch)| == 1 ==> EncodeUtf8(ch) == [b0]
  {
  }

  lemma TwoByteDecodeEncode(b0: Byte, b1: Byte, b2: Byte, b3: Byte)
    requires DecodeBytes(b0, b1, b2, b3).width == 2
    ensures var ch := DecodeBytes(b0, b1, b2, b3).codePoint;
            |EncodeUtf8(ch)| == 2 ==> EncodeUtf8(ch) == [b0, b1]
  {
  }

  lemma ThreeByteDecodeEncode(b0: Byte, b1: Byte, b2: Byte, b3: Byte)
    requires DecodeBytes(b0, b1, b2, b3).width == 3
    ensures var ch := DecodeBytes(b0, b1, b2, b3).codePoint;
            |EncodeUtf8(ch)| == 3 ==> EncodeUtf8(ch) == [b0, b1, b2]
  {
  }

  lemma FourByteDecodeEncode(b0: Byte, b1: Byte, b2: Byte, b3: Byte)
    requires DecodeBytes(b0, b1, b2, b3).width == 4
    ensures var ch := DecodeBytes(b0, b1, b2, b3).codePoint;
            |EncodeUtf8(ch)| == 4 ==> EncodeUtf8(ch) == [b0, b1, b2, b3]
  {
  }

  /** The bytes of a sequence of code points, each written by `append_utf8_char`. */
  function EncodeAll(cps: seq<CodePoint>): (r: seq<Byte>)
    ensures (forall i :: 0 <= i < |cps| ==> 0 < cps[i]) ==> forall k :: 0 <= k < |r| ==> r[k] != 0
  {
    if cps == [] then [] else EncodeUtf8(cps[0]) + EncodeAll(cps[1..])
  }

  /**
   * `append_utf8_char`: writes the bytes of `ch` at `buffer[pos..]` and moves
   * the write cursor past them; nothing is written at or above 0x110000.
   */
  method AppendUtf8Char(ch: CodePoint, buffer: array<Byte>, pos: nat) returns (next: nat)
    requires pos + |EncodeUtf8(ch)| <= buffer.Length
    modifies buffer
    ensures next == pos + |EncodeUtf8(ch)|
    ensures buffer[..] == old(buffer[..pos]) + EncodeUtf8(ch) + old(buffer[next..])
  {
    next := pos;
    if ch < 0x80 {
      buffer[next] := ch as Byte;
      next := next + 1;
    } else if ch < 0x800 {
      var b0, b1 := (0xC0 | (ch >> 6)) as Byte, (0x80 | (ch & 0x3F)) as Byte;
      assert [b0, b1] == EncodeUtf8(ch);
      buffer[next], buffer[next + 1] := b0, b1;
      next := next + 2;
    } else if ch < 0x1_0000 {
      var b0, b1, b2 := (0xE0 | (ch >> 12)) as Byte, (0x80 | ((ch >> 6) & 0x3F)) as Byte,
                        (0x80 | (ch & 0x3F)) as Byte;
      assert [b0, b1, b2] == EncodeUtf8(ch);
      buffer[next], buffer[next + 1], buffer[next + 2] := b0, b1, b2;
      next := next + 3;
    } else if ch < CodePointLimit {
      var b0, b1, b2, b3 := (0xF0 | (ch >> 18)) as Byte, (0x80 | ((ch >> 12) & 0x3F)) as Byte,
                            (0x80 | ((ch >> 6) & 0x3F)) as Byte, (0x80 | (ch & 0x3F)) as Byte;
      assert [b0, b1, b2, b3] == EncodeUtf8(ch);
      buffer[next], buffer[next + 1], buffer[next + 2], buffer[next + 3] := b0, b1, b2, b3;
      next := next + 4;
    }
    assert buffer[pos..next] == EncodeUtf8(ch);
    assert buffer[..pos] == old(buffer[..pos]);
    assert buffer[next..] == old(buffer[next..]);
    SplitThree(buffer[..], pos, next);
  }

  lemma SplitThree(s: seq<Byte>, i: nat, j: nat)
    requires i <= j <= |s|
    ensures s == s[..i] + s[i..j] + s[j..]
  {
  }
}
