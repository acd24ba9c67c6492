/**
 * The phoneme post-processing of NimbleNetDataVariable: recognising stress
 * markers, stripping them from an eSpeak phoneme string character by
 * character, and rewriting the result with the ordered E2M rule table.
 */
module Phonemes {
  import opened Options
  import opened Utf8
  import opened Replace

  /** `is_stress_marker`: the primary stress ˈ (U+02C8), the secondary stress ˌ (U+02CC) and '_'. */
  predicate IsStressMarker(ch: CodePoint)
  {
    ch == 0x02C8 || ch == 0x02CC || ch == 0x5F
  }

  /**
   * The stress markers are exactly the characters whose UTF-8 spelling is
   * CB 88, CB 8C or 5F, so a marker is recognised from its bytes alone.
   */
  lemma StressMarkerSpellings(ch: CodePoint)
    ensures IsStressMarker(ch) <==> EncodeUtf8(ch) in {[0xCB, 0x88], [0xCB, 0x8C], [0x5F]}
  {
    if ch < CodePointLimit {
      DecodeEncode(ch, []);
      var e := EncodeUtf8(ch);
      assert e + [] == e;
      if e == [0xCB, 0x88] {
        assert DecodeAt(e, 0).codePoint == 0x02C8;
      } else if e == [0xCB, 0x8C] {
        assert DecodeAt(e, 0).codePoint == 0x02CC;
      } else if e == [0x5F] {
        assert DecodeAt(e, 0).codePoint == 0x5F;
      }
    }
  }

  /** The code points of a sequence that are not stress markers, in order. */
  function Unstressed(cps: seq<CodePoint>): (r: seq<CodePoint>)
    ensures forall k :: 0 <= k < |r| ==> !IsStressMarker(r[k]) && r[k] in cps
    ensures |r| <= |cps|
  {
    if cps == [] then []
    else if IsStressMarker(cps[0]) then Unstressed(cps[1..])
    else [cps[0]] + Unstressed(cps[1..])
  }

  /**
   * The first loop of `process_phonemes`, on the C string that starts at the
   * read cursor: decode one character, keep its original bytes unless it is a
   * stress marker, and stop at the terminating NUL.
   */
  function StripStress(s: seq<Byte>): (r: seq<Byte>)
    ensures |r| <= |s|
    decreases |s|
  {
    if ByteAt(s, 0) == 0 then []
    else
      var d := DecodeAt(s, 0);
      (if IsStressMarker(d.codePoint) then [] else s[..d.width]) + StripStress(s[d.width..])
  }

  /**
   * On well-formed text without NUL characters, stripping works character by
   * character: the bytes kept are the UTF-8 spelling of the code points that
   * are not stress markers.
   */
  lemma {:induction false} StripStressEncoded(cps: seq<CodePoint>)
    requires forall k :: 0 <= k < |cps| ==> 0 < cps[k] < CodePointLimit
    ensures StripStress(EncodeAll(cps)) == EncodeAll(Unstressed(cps))
  {
    if cps != [] {
      var e := EncodeUtf8(cps[0]);
      var rest := EncodeAll(cps[1..]);
      assert EncodeAll(cps) == e + rest;
      DecodeEncode(cps[0], rest);
      assert ByteAt(e + rest, 0) == e[0];
      assert (e + rest)[..|e|] == e && (e + rest)[|e|..] == rest;
      StripStressEncoded(cps[1..]);
      if !IsStressMarker(cps[0]) {
        assert Unstressed(cps) == [cps[0]] + Unstressed(cps[1..]);
        assert EncodeAll([cps[0]] + Unstressed(cps[1..])) == e + EncodeAll(Unstressed(cps[1..]));
      }
    }
  }

  /** No '_' byte survives stripping: such a byte can only be the lead of a character, and then it is '_' itself. */
  lemma {:induction false} StripStressDropsUnderscore(s: seq<Byte>)
    ensures 0x5F !in StripStress(s)
    decreases |s|
  {
    if ByteAt(s, 0) != 0 {
      var d := DecodeAt(s, 0);
      StripStressDropsUnderscore(s[d.width..]);
      if !IsStressMarker(d.codePoint) {
        forall k | 0 <= k < d.width ensures s[k] != 0x5F {
          if k == 0 {
            assert d.codePoint != 0x5F;
          } else {
            assert IsUtf8Continuation(ByteAt(s, k));
          }
        }
      }
    }
  }

  /** The stripping loop stops at the terminating NUL, so no NUL byte reaches its output. */
  lemma {:induction false} StripStressNulFree(s: seq<Byte>)
    ensures NulFree(StripStress(s))
    decreases |s|
  {
    if ByteAt(s, 0) != 0 {
      var d := DecodeAt(s, 0);
      StripStressNulFree(s[d.width..]);
      if !IsStressMarker(d.codePoint) {
        forall k | 0 < k < d.width ensures s[k] != 0 {
          assert IsUtf8Continuation(ByteAt(s, k));
        }
      }
    }
  }

  /**
   * The E2M table of `transform_phonemes`, in the order it is applied, as the
   * UTF-8 bytes of its string literals.
   */
  const Rules: seq<(seq<Byte>, seq<Byte>)> := [
    ([0x61, 0x5E, 0xC9, 0xAA], [0x49]),                          // a^ɪ -> I
    ([0x61, 0x5E, 0xCA, 0x8A], [0x57]),                          // a^ʊ -> W
    ([0x64, 0x5E, 0x7A], [0xCA, 0xA3]),                          // d^z -> ʣ
    ([0x64, 0x5E, 0xCA, 0x92], [0xCA, 0xA4]),                    // d^ʒ -> ʤ
    ([0x65, 0x5E, 0xC9, 0xAA], [0x41]),                          // e^ɪ -> A
    ([0x6F, 0x5E, 0xCA, 0x8A], [0x4F]),                          // o^ʊ -> O
    ([0x73, 0x5E, 0x73], [0x53]),                                // s^s -> S
    ([0x74, 0x5E, 0x73], [0xCA, 0xA6]),                          // t^s -> ʦ
    ([0x74, 0x5E, 0xCA, 0x83], [0xCA, 0xA7]),                    // t^ʃ -> ʧ
    ([0xC9, 0x94, 0x5E, 0xC9, 0xAA], [0x59]),                    // ɔ^ɪ -> Y
    ([0xC9, 0x99, 0x5E, 0xCA, 0x8A], [0x51]),                    // ə^ʊ -> Q
    ([0xC9, 0x9C, 0xCB, 0x90, 0xC9, 0xB9], [0xC9, 0x9C, 0xC9, 0xB9]), // ɜːɹ -> ɜɹ
    ([0xC9, 0x94, 0xCB, 0x90], [0xC9, 0x94, 0xC9, 0xB9]),        // ɔː -> ɔɹ
    ([0xC9, 0xAA, 0xC9, 0x99], [0x69, 0xC9, 0x99]),              // ɪə -> iə
    ([0x5E], []),                                                // ^ -> (nothing)
    ([0x61, 0x6E, 0x64], [0xC3, 0xA6, 0x6E, 0x64]),              // and -> ænd
    ([0x3A], [])                                                 // : -> (nothing)
  ]

  /** The rules applied one after another, each through `replace_substring_robust`. */
  function ApplyRules(s: seq<Byte>, rules: seq<(seq<Byte>, seq<Byte>)>): seq<Byte>
  {
    if rules == [] then s
    else
      var r := rules[|rules| - 1];
      RobustReplace(ApplyRules(s, rules[..|rules| - 1]), r.0, r.1)
  }

  /** An ASCII rule goes through the `replace_substring` path, which is plain replacement. */
  lemma AsciiRuleIsReplaceAll(s: seq<Byte>, from: seq<Byte>, to: seq<Byte>)
    requires from != [] && IsAscii(from)
    ensures RobustReplace(s, from, to) == ReplaceAll(s, from, to)
  {
    assert from[0] < 0x80;
    BoundaryReplaceIsReplaceAll(s, from, to);
  }

  /**
   * The "^" and ":" rules come after every rule that could introduce those
   * bytes, so the output of the table holds neither '^' nor ':'.
   */
  lemma RulesRemoveCaretAndColon(s: seq<Byte>)
    ensures 0x5E !in ApplyRules(s, Rules) && 0x3A !in ApplyRules(s, Rules)
  {
    var t14 := ApplyRules(s, Rules[..14]);
    var t15 := ApplyRules(s, Rules[..15]);
    var t16 := ApplyRules(s, Rules[..16]);
    assert Rules[..15][..14] == Rules[..14];
    assert Rules[..16][..15] == Rules[..15];
    assert Rules[..17] == Rules;
    assert Rules[..17][..16] == Rules[..16];
    AsciiRuleIsReplaceAll(t14, [0x5E], []);
    ReplaceAllRemovesByte(t14, 0x5E, []);
    assert 0x5E !in t15;
    AsciiRuleIsReplaceAll(t15, [0x61, 0x6E, 0x64], [0xC3, 0xA6, 0x6E, 0x64]);
    ReplaceAllBytes(t15, [0x61, 0x6E, 0x64], [0xC3, 0xA6, 0x6E, 0x64]);
    assert 0x5E !in t16;
    AsciiRuleIsReplaceAll(t16, [0x3A], []);
    ReplaceAllRemovesByte(t16, 0x3A, []);
    ReplaceAllBytes(t16, [0x3A], []);
  }

  /** Every byte the table outputs comes from its input or from the replacement of some rule. */
  lemma {:induction false} ApplyRulesBytes(s: seq<Byte>, rules: seq<(seq<Byte>, seq<Byte>)>)
    ensures forall b :: b in ApplyRules(s, rules) ==> b in s || exists k :: 0 <= k < |rules| && b in rules[k].1
    decreases |rules|
  {
    if rules != [] {
      var init := rules[..|rules| - 1];
      var r := rules[|rules| - 1];
      ApplyRulesBytes(s, init);
      RobustReplaceBytes(ApplyRules(s, init), r.0, r.1);
      forall b | b in ApplyRules(s, rules)
        ensures b in s || exists k :: 0 <= k < |rules| && b in rules[k].1
      {
        if b !in s && b !in r.1 {
          var k :| 0 <= k < |init| && b in init[k].1;
          assert rules[k] == init[k];
        }
      }
    }
  }

  /** No rule writes a '_', so one stripped out beforehand does not come back. */
  lemma RulesKeepOutUnderscore(s: seq<Byte>)
    requires 0x5F !in s
    ensures 0x5F !in ApplyRules(s, Rules)
  {
    ApplyRulesBytes(s, Rules);
    assert forall k :: 0 <= k < |Rules| ==> 0x5F !in Rules[k].1;
  }

  /** `transform_phonemes`: rewrites with each rule of the table in turn. */
  method TransformPhonemes(phonemes: seq<Byte>) returns (result: seq<Byte>)
    ensures result == ApplyRules(phonemes, Rules)
    ensures 0x5E !in result && 0x3A !in result
  {
    result := phonemes;
    for k := 0 to |Rules|
      invariant result == ApplyRules(phonemes, Rules[..k])
    {
      assert Rules[..k + 1][..k] == Rules[..k];
      result := ReplaceSubstringRobust(result, Rules[k].0, Rules[k].1);
    }
    assert Rules[..|Rules|] == Rules;
    RulesRemoveCaretAndColon(phonemes);
  }

  lemma StripUnfold(t: seq<Byte>)
    requires ByteAt(t, 0) != 0
    ensures var d := DecodeAt(t, 0);
            d.width <= |t| &&
            StripStress(t) == (if IsStressMarker(d.codePoint) then [] else t[..d.width]) + StripStress(t[d.width..])
  {
  }

  /** Stripping from index `i` looks at the character there, then goes on after it. */
  lemma StripShift(s: seq<Byte>, i: nat)
    requires i < |s| && s[i] != 0
    ensures i + DecodeAt(s, i).width <= |s|
    ensures var d := DecodeAt(s, i);
            StripStress(s[i..])
            == (if IsStressMarker(d.codePoint) then [] else s[i..i + d.width]) + StripStress(s[i + d.width..])
  {
    var t := s[i..];
    DecodeSuffix(s, i);
    assert ByteAt(t, 0) == s[i];
    StripUnfold(t);
    var w := DecodeAt(s, i).width;
    assert t[..w] == s[i..i + w];
    assert t[w..] == s[i + w..];
  }

  /** One turn of the stripping loop with the cursor at index `i`. */
  lemma StripStep(s: seq<Byte>, done: seq<Byte>, i: nat)
    requires i < |s| && s[i] != 0
    ensures i + DecodeAt(s, i).width <= |s|
    ensures var d := DecodeAt(s, i);
            (if IsStressMarker(d.codePoint) then done else done + s[i..i + d.width])
              + StripStress(s[i + d.width..]) == done + StripStress(s[i..])
  {
    StripShift(s, i);
    var d := DecodeAt(s, i);
    var rest := StripStress(s[i + d.width..]);
    if IsStressMarker(d.codePoint) {
      assert [] + rest == rest;
    } else {
      AppendAssoc(done, s[i..i + d.width], rest);
    }
  }

  lemma AppendAssoc(a: seq<Byte>, b: seq<Byte>, c: seq<Byte>)
    ensures a + b + c == a + (b + c)
  {
  }

  /**
   * `process_phonemes`: a null pointer gives the empty string; otherwise the
   * stress markers are removed and the rule table applied.
   */
  method ProcessPhonemes(phonemes: Option<seq<Byte>>) returns (result: seq<Byte>)
    ensures phonemes.None? ==> result == []
    ensures phonemes.Some? ==> result == ApplyRules(StripStress(phonemes.value), Rules)
    ensures 0x5E !in result && 0x3A !in result && 0x5F !in result
  {
    if phonemes.None? {
      return [];
    }
    var s := phonemes.value;
    var withoutStress := [];
    var src: nat := 0;
    assert s[0..] == s;
    while ByteAt(s, src) != 0
      invariant src <= |s|
      invariant withoutStress + StripStress(s[src..]) == StripStress(s)
      decreases |s| - src
    {
      ghost var before := withoutStress;
      StripStep(s, withoutStress, src);
      var current := src;
      var d := DecodeAt(s, src);
      src := src + d.width;
      if !IsStressMarker(d.codePoint) {
        withoutStress := withoutStress + s[current..src];
      }
      assert withoutStress + StripStress(s[src..]) == before + StripStress(s[current..]);
    }
    assert ByteAt(s[src..], 0) == 0;
    assert withoutStress + [] == withoutStress;
    result := TransformPhonemes(withoutStress);
    StripStressDropsUnderscore(s);
    RulesKeepOutUnderscore(withoutStress);
  }
}
