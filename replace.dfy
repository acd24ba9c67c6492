/**
 * The UTF-8 aware find-and-replace of NimbleNetDataVariable:
 * `replace_substring` (a byte search that refuses matches starting inside a
 * multi-byte character) and `replace_substring_robust` (which hands ASCII
 * patterns to the former and otherwise walks the string one character at a
 * time).
 *
 * `ReplaceAll` is the reference: plain left-to-right, non-overlapping
 * replacement. The lemmas show when each implementation agrees with it.
 */
module Replace {
  import opened Options
  import opened Utf8

  /** `pat` occurs in `s` at index `i`: what `s.compare(i, |pat|, pat) == 0` tests. */
  predicate OccursAt(s: seq<Byte>, pat: seq<Byte>, i: nat)
  {
    i + |pat| <= |s| && s[i..i + |pat|] == pat
  }

  predicate IsAscii(pat: seq<Byte>)
  {
    forall k :: 0 <= k < |pat| ==> pat[k] < 0x80
  }

  predicate NulFree(s: seq<Byte>)
  {
    forall k :: 0 <= k < |s| ==> s[k] != 0
  }

  /** `std::string::find(pat, start)`: the first occurrence of `pat` at or after `start`. */
  function Find(s: seq<Byte>, pat: seq<Byte>, start: nat): (r: Option<nat>)
    ensures r.Some? ==> start <= r.value && OccursAt(s, pat, r.value)
    ensures r.Some? ==> forall k :: start <= k < r.value ==> !OccursAt(s, pat, k)
    ensures r.None? ==> forall k: nat :: start <= k ==> !OccursAt(s, pat, k)
    decreases |s| - start
  {
    if start + |pat| > |s| then None
    else if OccursAt(s, pat, start) then Some(start)
    else Find(s, pat, start + 1)
  }

  // ---------------------------------------------------------------------------
  // The reference: left-to-right, non-overlapping replacement

  function ReplaceAllFrom(s: seq<Byte>, from: seq<Byte>, to: seq<Byte>, i: nat): seq<Byte>
    requires |from| > 0 && i <= |s|
    decreases |s| - i
  {
    if i == |s| then []
    else if OccursAt(s, from, i) then to + ReplaceAllFrom(s, from, to, i + |from|)
    else [s[i]] + ReplaceAllFrom(s, from, to, i + 1)
  }

  /** Every occurrence of `from`, scanned left to right without overlap, replaced by `to`. */
  function ReplaceAll(s: seq<Byte>, from: seq<Byte>, to: seq<Byte>): seq<Byte>
  {
    if from == [] then s else ReplaceAllFrom(s, from, to, 0)
  }

  lemma {:induction false} ReplaceAllFromNoOccurrence(s: seq<Byte>, from: seq<Byte>, to: seq<Byte>, i: nat)
    requires |from| > 0 && i <= |s|
    requires forall k :: i <= k ==> !OccursAt(s, from, k)
    ensures ReplaceAllFrom(s, from, to, i) == s[i..]
    decreases |s| - i
  {
    if i < |s| {
      ReplaceAllFromNoOccurrence(s, from, to, i + 1);
    }
  }

  /** When `from` is empty or never occurs, the string comes back unchanged. */
  lemma ReplaceAllUnchanged(s: seq<Byte>, from: seq<Byte>, to: seq<Byte>)
    requires from == [] || forall k :: !OccursAt(s, from, k)
    ensures ReplaceAll(s, from, to) == s
  {
    if from != [] {
      ReplaceAllFromNoOccurrence(s, from, to, 0);
    }
  }

  lemma {:induction false} ReplaceAllFromBytes(s: seq<Byte>, from: seq<Byte>, to: seq<Byte>, i: nat)
    requires |from| > 0 && i <= |s|
    ensures forall b :: b in ReplaceAllFrom(s, from, to, i) ==> b in s[i..] || b in to
    decreases |s| - i
  {
    if i < |s| {
      if OccursAt(s, from, i) {
        assert ReplaceAllFrom(s, from, to, i) == to + ReplaceAllFrom(s, from, to, i + |from|);
        ReplaceAllFromBytes(s, from, to, i + |from|);
        SliceBytes(s, i, i + |from|);
      } else {
        assert ReplaceAllFrom(s, from, to, i) == [s[i]] + ReplaceAllFrom(s, from, to, i + 1);
        ReplaceAllFromBytes(s, from, to, i + 1);
        SliceBytes(s, i, i + 1);
      }
    }
  }

  /** The bytes of `s[i..j]` and of `s[j..]` are bytes of `s[i..]`. */
  lemma SliceBytes(s: seq<Byte>, i: nat, j: nat)
    requires i <= j <= |s|
    ensures forall b :: b in s[i..j] ==> b in s[i..]
    ensures forall b :: b in s[j..] ==> b in s[i..]
  {
    assert s[i..] == s[i..j] + s[j..];
  }

  /** Every byte of the result comes from the input or from the replacement. */
  lemma ReplaceAllBytes(s: seq<Byte>, from: seq<Byte>, to: seq<Byte>)
    ensures forall b :: b in ReplaceAll(s, from, to) ==> b in s || b in to
  {
    if from != [] {
      ReplaceAllFromBytes(s, from, to, 0);
      assert s[0..] == s;
    }
  }

  lemma {:induction false} ReplaceAllFromRemovesByte(s: seq<Byte>, c: Byte, to: seq<Byte>, i: nat)
    requires i <= |s| && c !in to
    ensures c !in ReplaceAllFrom(s, [c], to, i)
    decreases |s| - i
  {
    if i < |s| {
      if OccursAt(s, [c], i) {
        ReplaceAllFromRemovesByte(s, c, to, i + 1);
      } else {
        assert s[i..i + 1] == [s[i]];
        ReplaceAllFromRemovesByte(s, c, to, i + 1);
      }
    }
  }

  /** Replacing a single byte by a string without it leaves no copy of that byte. */
  lemma ReplaceAllRemovesByte(s: seq<Byte>, c: Byte, to: seq<Byte>)
    requires c !in to
    ensures c !in ReplaceAll(s, [c], to)
  {
    ReplaceAllFromRemovesByte(s, c, to, 0);
  }

  // ---------------------------------------------------------------------------
  // replace_substring

  /**
   * A match `replace_substring` accepts: one that does not start on a
   * continuation byte, except at the very start of the string.
   */
  predicate AcceptedMatch(s: seq<Byte>, from: seq<Byte>, i: nat)
  {
    i < |s| && OccursAt(s, from, i) && !(i > 0 && IsUtf8Continuation(s[i]))
  }

  function BoundaryReplaceFrom(s: seq<Byte>, from: seq<Byte>, to: seq<Byte>, i: nat): seq<Byte>
    requires |from| > 0 && i <= |s|
    decreases |s| - i
  {
    if i == |s| then []
    else if AcceptedMatch(s, from, i) then to + BoundaryReplaceFrom(s, from, to, i + |from|)
    else [s[i]] + BoundaryReplaceFrom(s, from, to, i + 1)
  }

  /** What `replace_substring` returns, with a rejected match skipped rather than retried. */
  function BoundaryReplace(s: seq<Byte>, from: seq<Byte>, to: seq<Byte>): seq<Byte>
  {
    if from == [] then s else BoundaryReplaceFrom(s, from, to, 0)
  }

  /** Positions where no match is accepted are copied through unchanged. */
  lemma {:induction false} BoundarySkip(s: seq<Byte>, from: seq<Byte>, to: seq<Byte>, i: nat, j: nat)
    requires |from| > 0 && i <= j <= |s|
    requires forall k :: i <= k < j ==> !AcceptedMatch(s, from, k)
    ensures BoundaryReplaceFrom(s, from, to, i) == s[i..j] + BoundaryReplaceFrom(s, from, to, j)
    decreases j - i
  {
    if i < j {
      BoundaryUnfoldRejected(s, from, to, i);
      BoundarySkip(s, from, to, i + 1, j);
      ConsSlice(s, i, j, BoundaryReplaceFrom(s, from, to, j));
    } else {
      assert s[i..j] == [];
    }
  }

  lemma BoundaryUnfoldRejected(s: seq<Byte>, from: seq<Byte>, to: seq<Byte>, i: nat)
    requires |from| > 0 && i < |s| && !AcceptedMatch(s, from, i)
    ensures BoundaryReplaceFrom(s, from, to, i) == [s[i]] + BoundaryReplaceFrom(s, from, to, i + 1)
  {
  }

  lemma ConsSlice(s: seq<Byte>, i: nat, j: nat, rest: seq<Byte>)
    requires i < j <= |s|
    ensures [s[i]] + (s[i + 1..j] + rest) == s[i..j] + rest
  {
    assert [s[i]] + s[i + 1..j] == s[i..j];
  }

  lemma {:induction false} BoundaryFromIsReplaceAllFrom(s: seq<Byte>, from: seq<Byte>, to: seq<Byte>, i: nat)
    requires |from| > 0 && i <= |s| && !IsUtf8Continuation(from[0])
    ensures BoundaryReplaceFrom(s, from, to, i) == ReplaceAllFrom(s, from, to, i)
    decreases |s| - i
  {
    if i < |s| {
      if OccursAt(s, from, i) {
        assert s[i] == from[0];
        BoundaryFromIsReplaceAllFrom(s, from, to, i + |from|);
      } else {
        BoundaryFromIsReplaceAllFrom(s, from, to, i + 1);
      }
    }
  }

  /**
   * When `from` does not start with a continuation byte (every ASCII pattern
   * included), the boundary check never rejects a match and `replace_substring`
   * is plain left-to-right replacement.
   */
  lemma BoundaryReplaceIsReplaceAll(s: seq<Byte>, from: seq<Byte>, to: seq<Byte>)
    requires from == [] || !IsUtf8Continuation(from[0])
    ensures BoundaryReplace(s, from, to) == ReplaceAll(s, from, to)
  {
    if from != [] {
      BoundaryFromIsReplaceAllFrom(s, from, to, 0);
    }
  }

  /** `replace_substring` leaves `s` unchanged when `from` is empty or never occurs. */
  lemma BoundaryReplaceUnchanged(s: seq<Byte>, from: seq<Byte>, to: seq<Byte>)
    requires from == [] || forall k :: !OccursAt(s, from, k)
    ensures BoundaryReplace(s, from, to) == s
  {
    if from != [] {
      BoundarySkip(s, from, to, 0, |s|);
    }
  }

  /**
   * One turn of `replace_substring`'s loop as written, from `lastPos`: the
   * search ends, a match is accepted and `lastPos` moves past it, or a match is
   * rejected; then `pos++; continue;` re-runs the search from the same
   * `lastPos`, so the loop's state is what it was before the turn.
   */
  datatype Turn = SearchEnded | MatchAccepted(lastPos: nat) | MatchRejected(lastPos: nat)

  function AsWrittenTurn(s: seq<Byte>, from: seq<Byte>, lastPos: nat): (t: Turn)
    requires |from| > 0
    ensures t.MatchAccepted? ==> lastPos < t.lastPos <= |s|
    ensures t.MatchRejected? ==> t.lastPos == lastPos
  {
    match Find(s, from, lastPos)
    case None => SearchEnded
    case Some(pos) =>
      if pos > 0 && IsUtf8Continuation(s[pos]) then MatchRejected(lastPos)
      else MatchAccepted(pos + |from|)
  }

  /**
   * The loop as written never terminates on `s = "A\x80"`, `from = "\x80"`:
   * the match at index 1 is rejected, and the next turn starts from the same
   * state.
   */
  lemma AsWrittenLoopStalls()
    ensures AsWrittenTurn([0x41, 0x80], [0x80], 0) == MatchRejected(0)
  {
    var s: seq<Byte> := [0x41, 0x80];
    assert s[0..1] == [0x41] && s[1..2] == [0x80];
  }

  /**
   * A rejection, and with it the stall, needs a pattern that starts with a
   * continuation byte; for any other pattern each turn of the loop as written
   * accepts the same match as `BoundaryReplace`.
   */
  lemma AsWrittenStallsOnlyOnContinuation(s: seq<Byte>, from: seq<Byte>, lastPos: nat)
    requires |from| > 0 && !IsUtf8Continuation(from[0])
    ensures !AsWrittenTurn(s, from, lastPos).MatchRejected?
    ensures var f := Find(s, from, lastPos);
            f.Some? ==> AcceptedMatch(s, from, f.value)
                        && AsWrittenTurn(s, from, lastPos) == MatchAccepted(f.value + |from|)
  {
    var f := Find(s, from, lastPos);
    if f.Some? {
      assert s[f.value] == s[f.value..f.value + |from|][0] == from[0];
    }
  }

  /**
   * `replace_substring`, with a rejected match skipped: the search resumes one
   * byte past it instead of at `lastPos` again.
   */
  method ReplaceSubstring(str: seq<Byte>, from: seq<Byte>, to: seq<Byte>) returns (result: seq<Byte>)
    ensures result == BoundaryReplace(str, from, to)
  {
    if from == [] {
      return str;
    }
    result := [];
    var lastPos: nat, searchPos: nat := 0, 0;
    while true
      invariant lastPos <= searchPos <= |str|
      invariant BoundaryProgress(str, from, to, result, lastPos, searchPos)
      decreases |str| - searchPos
    {
      var found := Find(str, from, searchPos);
      if found.None? {
        break;
      }
      var pos := found.value;
      var validBoundary := true;
      if pos > 0 && IsUtf8Continuation(str[pos]) {
        validBoundary := false;
      }
      if validBoundary {
        BoundaryAcceptStep(str, from, to, result, lastPos, searchPos, pos);
        result := result + str[lastPos..pos] + to;
        lastPos := pos + |from|;
        searchPos := lastPos;
      } else {
        BoundaryRejectStep(str, from, to, result, lastPos, searchPos, pos);
        searchPos := pos + 1;
      }
    }
    BoundaryFinishStep(str, from, to, result, lastPos, searchPos);
    result := result + str[lastPos..];
  }

  /**
   * The state of `replace_substring`'s loop: `result` followed by the
   * replacement of the rest from `lastPos` is the whole answer, and the
   * matches between `lastPos` and `searchPos` were all rejected.
   */
  ghost predicate BoundaryProgress(s: seq<Byte>, from: seq<Byte>, to: seq<Byte>, done: seq<Byte>,
                                   lastPos: nat, searchPos: nat)
    requires |from| > 0 && lastPos <= searchPos <= |s|
  {
    && (forall k :: lastPos <= k < searchPos ==> !AcceptedMatch(s, from, k))
    && done + BoundaryReplaceFrom(s, from, to, lastPos) == BoundaryReplace(s, from, to)
  }

  /** No match is accepted in `[lastPos, end)` when none is in `[lastPos, searchPos)` and none occurs in `[searchPos, end)`. */
  lemma NoAcceptedMatchBetween(s: seq<Byte>, from: seq<Byte>, lastPos: nat, searchPos: nat, end: nat)
    requires forall k :: lastPos <= k < searchPos ==> !AcceptedMatch(s, from, k)
    requires forall k :: searchPos <= k < end ==> !OccursAt(s, from, k)
    ensures forall k :: lastPos <= k < end ==> !AcceptedMatch(s, from, k)
  {
  }

  /** The loop's step over an accepted match at `pos`, the first match at or after `searchPos`. */
  lemma BoundaryAcceptStep(s: seq<Byte>, from: seq<Byte>, to: seq<Byte>, done: seq<Byte>,
                           lastPos: nat, searchPos: nat, pos: nat)
    requires |from| > 0 && lastPos <= searchPos <= pos && OccursAt(s, from, pos)
    requires BoundaryProgress(s, from, to, done, lastPos, searchPos)
    requires forall k :: searchPos <= k < pos ==> !OccursAt(s, from, k)
    requires !(pos > 0 && IsUtf8Continuation(s[pos]))
    ensures pos + |from| <= |s|
    ensures BoundaryProgress(s, from, to, done + s[lastPos..pos] + to, pos + |from|, pos + |from|)
  {
    NoAcceptedMatchBetween(s, from, lastPos, searchPos, pos);
    BoundarySkip(s, from, to, lastPos, pos);
    BoundaryUnfoldAccepted(s, from, to, pos);
    var rest := BoundaryReplaceFrom(s, from, to, pos + |from|);
    assert done + BoundaryReplaceFrom(s, from, to, lastPos) == done + (s[lastPos..pos] + (to + rest));
    assert done + (s[lastPos..pos] + (to + rest)) == done + s[lastPos..pos] + to + rest;
  }

  lemma BoundaryUnfoldAccepted(s: seq<Byte>, from: seq<Byte>, to: seq<Byte>, i: nat)
    requires |from| > 0 && i + |from| <= |s| && AcceptedMatch(s, from, i)
    ensures BoundaryReplaceFrom(s, from, to, i) == to + BoundaryReplaceFrom(s, from, to, i + |from|)
  {
  }

  /** The loop's step over a match at `pos` that starts inside a character: it is skipped. */
  lemma BoundaryRejectStep(s: seq<Byte>, from: seq<Byte>, to: seq<Byte>, done: seq<Byte>,
                           lastPos: nat, searchPos: nat, pos: nat)
    requires |from| > 0 && lastPos <= searchPos <= pos && OccursAt(s, from, pos)
    requires BoundaryProgress(s, from, to, done, lastPos, searchPos)
    requires forall k :: searchPos <= k < pos ==> !OccursAt(s, from, k)
    requires pos > 0 && IsUtf8Continuation(s[pos])
    ensures pos + 1 <= |s|
    ensures BoundaryProgress(s, from, to, done, lastPos, pos + 1)
  {
    NoAcceptedMatchBetween(s, from, lastPos, searchPos, pos);
  }

  /** Once no match occurs at or after `searchPos`, the rest of the input is copied through. */
  lemma BoundaryFinishStep(s: seq<Byte>, from: seq<Byte>, to: seq<Byte>, done: seq<Byte>,
                           lastPos: nat, searchPos: nat)
    requires |from| > 0 && lastPos <= searchPos <= |s|
    requires BoundaryProgress(s, from, to, done, lastPos, searchPos)
    requires forall k: nat :: searchPos <= k ==> !OccursAt(s, from, k)
    ensures done + s[lastPos..] == BoundaryReplace(s, from, to)
  {
    NoAcceptedMatchBetween(s, from, lastPos, searchPos, |s|);
    BoundarySkip(s, from, to, lastPos, |s|);
    assert s[lastPos..|s|] == s[lastPos..];
  }

  // ---------------------------------------------------------------------------
  // replace_substring_robust

  /**
   * The character-by-character walk of `replace_substring_robust`, from index
   * `i`: it stops at the first NUL byte (it walks `c_str()`), replaces a match
   * at the cursor, and otherwise copies the bytes of one decoded character.
   */
  function CharwiseReplaceFrom(s: seq<Byte>, from: seq<Byte>, to: seq<Byte>, i: nat): seq<Byte>
    requires |from| > 0 && i <= |s|
    decreases |s| - i
  {
    if ByteAt(s, i) == 0 then []
    else if OccursAt(s, from, i) then to + CharwiseReplaceFrom(s, from, to, i + |from|)
    else
      var w := WidthAt(s, i);
      s[i..i + w] + CharwiseReplaceFrom(s, from, to, i + w)
  }

  /** One step of the walk from a non-NUL byte: a match is replaced, otherwise one character is copied. */
  lemma CharwiseUnfold(s: seq<Byte>, from: seq<Byte>, to: seq<Byte>, i: nat)
    requires |from| > 0 && i < |s| && s[i] != 0
    ensures i + WidthAt(s, i) <= |s|
    ensures OccursAt(s, from, i) ==>
              CharwiseReplaceFrom(s, from, to, i) == to + CharwiseReplaceFrom(s, from, to, i + |from|)
    ensures !OccursAt(s, from, i) ==>
              CharwiseReplaceFrom(s, from, to, i)
              == s[i..i + WidthAt(s, i)] + CharwiseReplaceFrom(s, from, to, i + WidthAt(s, i))
  {
    assert ByteAt(s, i) == s[i];
  }

  /** One replacing step of the walk, with the output produced so far in front. */
  lemma CharwiseMatchStep(s: seq<Byte>, from: seq<Byte>, to: seq<Byte>, done: seq<Byte>, i: nat)
    requires |from| > 0 && i < |s| && s[i] != 0 && OccursAt(s, from, i)
    ensures (done + to) + CharwiseReplaceFrom(s, from, to, i + |from|) == done + CharwiseReplaceFrom(s, from, to, i)
  {
    CharwiseUnfold(s, from, to, i);
  }

  /** One copying step of the walk, with the output produced so far in front. */
  lemma CharwiseCopyStep(s: seq<Byte>, from: seq<Byte>, to: seq<Byte>, done: seq<Byte>, i: nat)
    requires |from| > 0 && i < |s| && s[i] != 0 && !OccursAt(s, from, i)
    ensures i + WidthAt(s, i) <= |s|
    ensures var w := WidthAt(s, i);
            (done + s[i..i + w]) + CharwiseReplaceFrom(s, from, to, i + w) == done + CharwiseReplaceFrom(s, from, to, i)
  {
    CharwiseUnfold(s, from, to, i);
  }

  /** What `replace_substring_robust` returns. */
  function RobustReplace(s: seq<Byte>, from: seq<Byte>, to: seq<Byte>): seq<Byte>
  {
    if from == [] then s
    else if IsAscii(from) then BoundaryReplace(s, from, to)
    else CharwiseReplaceFrom(s, from, to, 0)
  }

  lemma {:induction false} CharwiseIsBoundaryFrom(s: seq<Byte>, from: seq<Byte>, to: seq<Byte>, i: nat)
    requires |from| > 0 && i <= |s| && NulFree(s) && !IsUtf8Continuation(from[0])
    ensures CharwiseReplaceFrom(s, from, to, i) == BoundaryReplaceFrom(s, from, to, i)
    decreases |s| - i
  {
    if i < |s| {
      if OccursAt(s, from, i) {
        CharwiseBoundaryMatch(s, from, to, i);
        CharwiseIsBoundaryFrom(s, from, to, i + |from|);
      } else {
        CharwiseBoundaryCopy(s, from, to, i);
        CharwiseIsBoundaryFrom(s, from, to, i + WidthAt(s, i));
      }
    } else {
      assert ByteAt(s, i) == 0;
    }
  }

  /** A match at a character boundary: both walks put `to` in its place. */
  lemma CharwiseBoundaryMatch(s: seq<Byte>, from: seq<Byte>, to: seq<Byte>, i: nat)
    requires |from| > 0 && i < |s| && NulFree(s) && !IsUtf8Continuation(from[0]) && OccursAt(s, from, i)
    ensures CharwiseReplaceFrom(s, from, to, i) == to + CharwiseReplaceFrom(s, from, to, i + |from|)
    ensures BoundaryReplaceFrom(s, from, to, i) == to + BoundaryReplaceFrom(s, from, to, i + |from|)
  {
    assert s[i] == s[i..i + |from|][0] == from[0];
    BoundaryUnfoldAccepted(s, from, to, i);
  }

  /** No match at a character: both walks copy its bytes. */
  lemma CharwiseBoundaryCopy(s: seq<Byte>, from: seq<Byte>, to: seq<Byte>, i: nat)
    requires |from| > 0 && i < |s| && NulFree(s) && !IsUtf8Continuation(from[0]) && !OccursAt(s, from, i)
    ensures i + WidthAt(s, i) <= |s|
    ensures CharwiseReplaceFrom(s, from, to, i)
            == s[i..i + WidthAt(s, i)] + CharwiseReplaceFrom(s, from, to, i + WidthAt(s, i))
    ensures BoundaryReplaceFrom(s, from, to, i)
            == s[i..i + WidthAt(s, i)] + BoundaryReplaceFrom(s, from, to, i + WidthAt(s, i))
  {
    assert ByteAt(s, i) != 0;
    NoMatchInsideCharacter(s, from, i);
    BoundarySkip(s, from, to, i, i + WidthAt(s, i));
  }

  /** A pattern that does not start with a continuation byte cannot match inside a character. */
  lemma NoMatchInsideCharacter(s: seq<Byte>, from: seq<Byte>, i: nat)
    requires |from| > 0 && i < |s| && !OccursAt(s, from, i) && !IsUtf8Continuation(from[0])
    ensures forall k :: i <= k < i + WidthAt(s, i) ==> !AcceptedMatch(s, from, k)
  {
    var w := WidthAt(s, i);
    forall k | i < k < i + w
      ensures !OccursAt(s, from, k)
    {
      assert IsUtf8Continuation(ByteAt(s, k));
    }
  }

  /**
   * On a NUL-free string and a pattern that does not start with a continuation
   * byte, both paths of `replace_substring_robust` are plain left-to-right
   * replacement: a match can only start where a character starts.
   */
  lemma RobustReplaceIsReplaceAll(s: seq<Byte>, from: seq<Byte>, to: seq<Byte>)
    requires NulFree(s)
    requires from == [] || !IsUtf8Continuation(from[0])
    ensures RobustReplace(s, from, to) == ReplaceAll(s, from, to)
  {
    BoundaryReplaceIsReplaceAll(s, from, to);
    if from != [] && !IsAscii(from) {
      CharwiseIsBoundaryFrom(s, from, to, 0);
    }
  }

  lemma {:induction false} CharwiseFromNoOccurrence(s: seq<Byte>, from: seq<Byte>, to: seq<Byte>, i: nat)
    requires |from| > 0 && i <= |s| && NulFree(s)
    requires forall k :: i <= k ==> !OccursAt(s, from, k)
    ensures CharwiseReplaceFrom(s, from, to, i) == s[i..]
    decreases |s| - i
  {
    if i < |s| {
      CharwiseUnfold(s, from, to, i);
      var w := WidthAt(s, i);
      CharwiseFromNoOccurrence(s, from, to, i + w);
      assert s[i..i + w] + s[i + w..] == s[i..];
    }
  }

  /**
   * `replace_substring_robust` leaves a NUL-free string unchanged when `from`
   * is empty or never occurs.
   */
  lemma RobustReplaceUnchanged(s: seq<Byte>, from: seq<Byte>, to: seq<Byte>)
    requires NulFree(s)
    requires from == [] || forall k :: !OccursAt(s, from, k)
    ensures RobustReplace(s, from, to) == s
  {
    BoundaryReplaceUnchanged(s, from, to);
    if from != [] && !IsAscii(from) {
      CharwiseFromNoOccurrence(s, from, to, 0);
    }
  }

  /** The scan of `replace_substring_robust` for a byte at or above 0x80 in the pattern. */
  method HasMultibyteChars(pat: seq<Byte>) returns (found: bool)
    ensures found <==> !IsAscii(pat)
  {
    found := false;
    var k := 0;
    while k < |pat| && !found
      invariant 0 <= k <= |pat|
      invariant found ==> 0 < k && pat[k - 1] >= 0x80
      invariant !found ==> forall j :: 0 <= j < k ==> pat[j] < 0x80
    {
      if pat[k] >= 0x80 {
        found := true;
      }
      k := k + 1;
    }
  }

  lemma {:induction false} BoundaryFromBytes(s: seq<Byte>, from: seq<Byte>, to: seq<Byte>, i: nat)
    requires |from| > 0 && i <= |s|
    ensures forall b :: b in BoundaryReplaceFrom(s, from, to, i) ==> b in s[i..] || b in to
    decreases |s| - i
  {
    if i < |s| {
      if AcceptedMatch(s, from, i) {
        BoundaryUnfoldAccepted(s, from, to, i);
        BoundaryFromBytes(s, from, to, i + |from|);
        SliceBytes(s, i, i + |from|);
      } else {
        BoundaryUnfoldRejected(s, from, to, i);
        BoundaryFromBytes(s, from, to, i + 1);
        SliceBytes(s, i, i + 1);
      }
    }
  }

  lemma {:induction false} CharwiseFromBytes(s: seq<Byte>, from: seq<Byte>, to: seq<Byte>, i: nat)
    requires |from| > 0 && i <= |s|
    ensures forall b :: b in CharwiseReplaceFrom(s, from, to, i) ==> b in s[i..] || b in to
    decreases |s| - i
  {
    if ByteAt(s, i) != 0 {
      CharwiseUnfold(s, from, to, i);
      if OccursAt(s, from, i) {
        CharwiseFromBytes(s, from, to, i + |from|);
        SliceBytes(s, i, i + |from|);
      } else {
        CharwiseFromBytes(s, from, to, i + WidthAt(s, i));
        SliceBytes(s, i, i + WidthAt(s, i));
      }
    }
  }

  /** `replace_substring_robust` only copies bytes of its input and of the replacement. */
  lemma RobustReplaceBytes(s: seq<Byte>, from: seq<Byte>, to: seq<Byte>)
    ensures forall b :: b in RobustReplace(s, from, to) ==> b in s || b in to
  {
    if from != [] {
      BoundaryFromBytes(s, from, to, 0);
      CharwiseFromBytes(s, from, to, 0);
      assert s[0..] == s;
    }
  }

  /** `replace_substring_robust`. */
  method ReplaceSubstringRobust(str: seq<Byte>, from: seq<Byte>, to: seq<Byte>) returns (result: seq<Byte>)
    ensures result == RobustReplace(str, from, to)
    ensures from == [] ==> result == str
    ensures from != [] && IsAscii(from) ==> result == ReplaceAll(str, from, to)
  {
    if from == [] {
      return str;
    }
    var hasMultibyteChars := HasMultibyteChars(from);
    if !hasMultibyteChars {
      assert from[0] < 0x80;
      result := ReplaceSubstring(str, from, to);
      BoundaryReplaceIsReplaceAll(str, from, to);
      return;
    }
    result := [];
    var strPos: nat := 0;
    while ByteAt(str, strPos) != 0
      invariant strPos <= |str|
      invariant result + CharwiseReplaceFrom(str, from, to, strPos) == CharwiseReplaceFrom(str, from, to, 0)
      decreases |str| - strPos
    {
      if OccursAt(str, from, strPos) {
        CharwiseMatchStep(str, from, to, result, strPos);
        result := result + to;
        strPos := strPos + |from|;
      } else {
        CharwiseCopyStep(str, from, to, result, strPos);
        var next := DecodeAt(str, strPos).width;
        result := result + str[strPos..strPos + next];
        strPos := strPos + next;
      }
    }
  }
}
