/** The one active entry of the pattern registry, the hexadecimal colour
    pattern `#(?:[0-9a-fA-F]{3}){1,2}\b`, written out as a matcher, and the
    left-to-right scan that `re.findall` performs with it. */
module HexPattern {

  datatype Option<T> = None | Some(value: T)

  predicate IsHexDigit(c: char) {
    '0' <= c <= '9' || 'a' <= c <= 'f' || 'A' <= c <= 'F'
  }

  /** Word characters for `\b`, restricted to ASCII: `[A-Za-z0-9_]`. */
  predicate IsWordChar(c: char) {
    'a' <= c <= 'z' || 'A' <= c <= 'Z' || '0' <= c <= '9' || c == '_'
  }

  /** `\b` holds at position `p` when exactly one of the characters on
      either side of `p` is a word character (the text's ends count as
      non-word). */
  predicate IsBoundary(text: string, p: nat)
    requires p <= |text|
  {
    (p > 0 && IsWordChar(text[p - 1])) != (p < |text| && IsWordChar(text[p]))
  }

  /** What `\b` means right after a word character: the text ends or a
      non-word character follows. */
  predicate FollowedByNonWord(text: string, p: nat) {
    p == |text| || (p < |text| && !IsWordChar(text[p]))
  }

  /** A colour literal the pattern can produce: `#` and then one or two
      groups of three hexadecimal digits. */
  predicate IsHexLiteral(s: string) {
    (|s| == 4 || |s| == 7) && s[0] == '#'
    && IsHexDigit(s[1]) && IsHexDigit(s[2]) && IsHexDigit(s[3])
    && (|s| == 7 ==> IsHexDigit(s[4]) && IsHexDigit(s[5]) && IsHexDigit(s[6]))
  }

  /** The pattern matches `text[i..i + k]` at position `i`: the slice is a
      colour literal and `\b` holds right after it. */
  predicate LiteralAt(text: string, i: nat, k: nat) {
    i + k <= |text| && IsHexLiteral(text[i..i + k]) && IsBoundary(text, i + k)
  }

  /** The number of hexadecimal digits starting at `from`, counting at most
      `limit` of them. */
  function HexRun(text: string, from: nat, limit: nat): (n: nat)
    requires from <= |text|
    ensures n <= limit && from + n <= |text|
    ensures forall j :: from <= j < from + n ==> IsHexDigit(text[j])
    ensures n < limit ==> from + n == |text| || !IsHexDigit(text[from + n])
    decreases limit
  {
    if limit == 0 || from == |text| || !IsHexDigit(text[from]) then 0
    else 1 + HexRun(text, from + 1, limit - 1)
  }

  /** The length of the match the pattern makes at position `i`, if any.
      The repetition `{1,2}` is greedy: six digits are tried first, and three
      only when six digits followed by `\b` are not there. */
  function MatchAt(text: string, i: nat): (r: Option<nat>)
    ensures r.Some? ==> LiteralAt(text, i, r.value)
  {
    if i < |text| && text[i] == '#' then
      var run := HexRun(text, i + 1, 6);
      if run == 6 && IsBoundary(text, i + 7) then
        var s := text[i..i + 7];
        assert s[1] == text[i + 1] && s[2] == text[i + 2] && s[3] == text[i + 3];
        assert s[4] == text[i + 4] && s[5] == text[i + 5] && s[6] == text[i + 6];
        Some(7)
      else if run >= 3 && IsBoundary(text, i + 4) then
        var s := text[i..i + 4];
        assert s[1] == text[i + 1] && s[2] == text[i + 2] && s[3] == text[i + 3];
        Some(4)
      else None
    else None
  }

  /** The match found at `i` is the longest the pattern allows there: no
      literal followed by `\b` starts at `i` unless a match is found, and
      none is longer than it. */
  lemma LongestMatch(text: string, i: nat, k: nat)
    requires LiteralAt(text, i, k)
    ensures MatchAt(text, i).Some? && k <= MatchAt(text, i).value
  {
    var s := text[i..i + k];
    assert text[i] == s[0];
    assert s[1] == text[i + 1] && s[2] == text[i + 2] && s[3] == text[i + 3];
    var run := HexRun(text, i + 1, 6);
    if k == 7 {
      assert s[4] == text[i + 4] && s[5] == text[i + 5] && s[6] == text[i + 6];
      assert run == 6;
    } else {
      assert run >= 3;
    }
  }

  /** `re.findall` with the hex pattern from position `from`: try a match at
      the current position; on success record it and resume after it,
      otherwise move on by one character. */
  function FindAllHex(text: string, from: nat): seq<string>
    decreases |text| - from
  {
    if from >= |text| then []
    else match MatchAt(text, from)
      case Some(k) => [text[from..from + k]] + FindAllHex(text, from + k)
      case None => FindAllHex(text, from + 1)
  }

  /** Every literal the scan yields is `#` and three or six hex digits. */
  lemma {:induction false} FoundAreLiterals(text: string, from: nat)
    ensures forall s :: s in FindAllHex(text, from) ==> IsHexLiteral(s)
    decreases |text| - from
  {
    if from < |text| {
      match MatchAt(text, from)
      case Some(k) => FoundAreLiterals(text, from + k);
      case None => FoundAreLiterals(text, from + 1);
    }
  }

  /** Reference reading of the same scan: every position is tried once and
      contributes the match found there, if any. */
  function EveryPositionMatches(text: string, from: nat): seq<string>
    decreases |text| - from
  {
    if from >= |text| then []
    else
      (match MatchAt(text, from)
       case Some(k) => [text[from..from + k]]
       case None => []) + EveryPositionMatches(text, from + 1)
  }

  /** Positions without a `#` contribute nothing to the reference scan. */
  lemma {:induction false} SkipWithoutHash(text: string, a: nat, b: nat)
    requires a <= b <= |text|
    requires forall p :: a <= p < b ==> text[p] != '#'
    ensures EveryPositionMatches(text, a) == EveryPositionMatches(text, b)
    decreases b - a
  {
    if a < b {
      NoMatchStep(text, a);
      SkipWithoutHash(text, a + 1, b);
    }
  }

  /** A position without `#` contributes nothing to the reference scan. */
  lemma NoMatchStep(text: string, a: nat)
    requires a < |text| && text[a] != '#'
    ensures EveryPositionMatches(text, a) == EveryPositionMatches(text, a + 1)
  {
    assert MatchAt(text, a) == None;
  }

  /** Resuming after a match skips no `#`: the scan equals trying every
      position once. */
  lemma {:induction false} ScanTriesEveryHash(text: string, from: nat)
    ensures FindAllHex(text, from) == EveryPositionMatches(text, from)
    decreases |text| - from
  {
    if from < |text| {
      match MatchAt(text, from)
      case Some(k) =>
        var s := text[from..from + k];
        forall p | from + 1 <= p < from + k ensures text[p] != '#' {
          assert text[p] == s[p - from];
        }
        SkipWithoutHash(text, from + 1, from + k);
        ScanTriesEveryHash(text, from + k);
      case None =>
        ScanTriesEveryHash(text, from + 1);
    }
  }

  /** Every literal the reference scan yields is matched somewhere at or
      after `from`. */
  lemma {:induction false} EveryPositionMatchOccurs(text: string, from: nat, s: string)
    requires s in EveryPositionMatches(text, from)
    ensures exists p: nat :: from <= p && LiteralAt(text, p, |s|) && text[p..p + |s|] == s
    decreases |text| - from
  {
    if from < |text| {
      match MatchAt(text, from)
      case Some(k) =>
        if s != text[from..from + k] {
          EveryPositionMatchOccurs(text, from + 1, s);
        }
      case None =>
        EveryPositionMatchOccurs(text, from + 1, s);
    }
  }

  /** Each literal `re.findall` returns is `#` plus three or six hex digits,
      and stands in the text at a position where the pattern matches, that
      is, followed by the end of the text or a non-word character. */
  lemma MatchesOccurInText(text: string, s: string)
    requires s in FindAllHex(text, 0)
    ensures IsHexLiteral(s)
    ensures exists p: nat :: LiteralAt(text, p, |s|) && text[p..p + |s|] == s
                             && FollowedByNonWord(text, p + |s|)
  {
    FoundAreLiterals(text, 0);
    ScanTriesEveryHash(text, 0);
    EveryPositionMatchOccurs(text, 0, s);
    var p: nat :| LiteralAt(text, p, |s|) && text[p..p + |s|] == s;
    assert text[p + |s| - 1] == s[|s| - 1];
    assert FollowedByNonWord(text, p + |s|);
  }

  /** The scan passes over a stretch without `#` without yielding anything. */
  lemma SkipToHash(text: string, a: nat, b: nat)
    requires a <= b <= |text|
    requires '#' !in text[a..b]
    ensures FindAllHex(text, a) == FindAllHex(text, b)
  {
    forall p | a <= p < b ensures text[p] != '#' {
      assert text[p] == text[a..b][p - a];
    }
    ScanTriesEveryHash(text, a);
    ScanTriesEveryHash(text, b);
    SkipWithoutHash(text, a, b);
  }

  /** A colour literal followed by the end of the text or a non-word
      character is matched whole. */
  lemma MatchOfLiteral(text: string, i: nat, lit: string)
    requires i + |lit| <= |text| && text[i..i + |lit|] == lit
    requires IsHexLiteral(lit) && FollowedByNonWord(text, i + |lit|)
    ensures MatchAt(text, i) == Some(|lit|)
  {
    assert text[i + |lit| - 1] == lit[|lit| - 1];
    assert LiteralAt(text, i, |lit|);
    LongestMatch(text, i, |lit|);
  }

  /** One step of the scan at a position where the pattern matches. */
  lemma ScanStep(text: string, i: nat, k: nat)
    requires MatchAt(text, i) == Some(k)
    ensures FindAllHex(text, i) == [text[i..i + k]] + FindAllHex(text, i + k)
  {
  }

  /** Where the stretches of `done + gap + lit + rest` sit. */
  lemma PieceSlices(done: string, gap: string, lit: string, rest: string)
    ensures var text := done + gap + lit + rest;
            text[|done|..|done + gap|] == gap
            && text[|done + gap|..|done + gap| + |lit|] == lit
            && |done + gap| + |lit| == |done + gap + lit|
            && (rest != [] ==> text[|done + gap + lit|] == rest[0])
  {
  }

  /** Scanning `done + gap + lit + rest` from the end of `done`: nothing in
      `gap` matches, and `lit` is the next match when it is a colour literal
      followed by the end of the text or a non-word character. */
  lemma ScanPiece(done: string, gap: string, lit: string, rest: string)
    requires '#' !in gap
    requires IsHexLiteral(lit)
    requires rest == [] || !IsWordChar(rest[0])
    ensures FindAllHex(done + gap + lit + rest, |done|) ==
              [lit] + FindAllHex(done + gap + lit + rest, |done + gap + lit|)
  {
    var text := done + gap + lit + rest;
    var i := |done + gap|;
    PieceSlices(done, gap, lit, rest);
    SkipToHash(text, |done|, i);
    MatchOfLiteral(text, i, lit);
    ScanStep(text, i, |lit|);
  }

  /** Text made of `#`-free stretches around two colour literals, each
      followed by the end of the text or a non-word character (the second
      literal's `#` counts as one when the literals touch), yields exactly
      those two literals. */
  lemma TwoLiterals(gap1: string, lit1: string, gap2: string, lit2: string, tail: string)
    requires '#' !in gap1 && '#' !in gap2 && '#' !in tail
    requires IsHexLiteral(lit1) && IsHexLiteral(lit2)
    requires gap2 == [] || !IsWordChar(gap2[0])
    requires tail == [] || !IsWordChar(tail[0])
    ensures FindAllHex(gap1 + lit1 + gap2 + lit2 + tail, 0) == [lit1, lit2]
  {
    var text := gap1 + lit1 + gap2 + lit2 + tail;
    var j, k := |gap1 + lit1|, |gap1 + lit1 + gap2 + lit2|;
    assert !IsWordChar((gap2 + lit2 + tail)[0]) by {
      if gap2 == [] {
        assert (gap2 + lit2 + tail)[0] == lit2[0] == '#';
      } else {
        assert (gap2 + lit2 + tail)[0] == gap2[0];
      }
    }
    calc {
      FindAllHex(text, 0);
    == { TwoLiteralsRegroup(gap1, lit1, gap2, lit2, tail);
         ScanPiece([], gap1, lit1, gap2 + lit2 + tail); }
      [lit1] + FindAllHex(text, j);
    == { ScanPiece(gap1 + lit1, gap2, lit2, tail); }
      [lit1] + ([lit2] + FindAllHex(text, k));
    == { NothingAfter(gap1 + lit1 + gap2 + lit2, tail); }
      [lit1] + ([lit2] + []);
    ==
      [lit1, lit2];
    }
  }

  /** The text seen as `[] + gap1 + lit1 + rest`. */
  lemma TwoLiteralsRegroup(gap1: string, lit1: string, gap2: string, lit2: string, tail: string)
    ensures [] + gap1 + lit1 + (gap2 + lit2 + tail) == gap1 + lit1 + gap2 + lit2 + tail
    ensures |[] + gap1 + lit1| == |gap1 + lit1|
  {
    assert [] + gap1 == gap1;
    assert gap2 + lit2 + tail == gap2 + (lit2 + tail);
    assert gap1 + lit1 + gap2 + lit2 == gap1 + lit1 + (gap2 + lit2);
    assert gap1 + lit1 + (gap2 + lit2) + tail == gap1 + lit1 + (gap2 + lit2 + tail);
  }

  /** A `#`-free end of the text yields no match. */
  lemma NothingAfter(done: string, tail: string)
    requires '#' !in tail
    ensures FindAllHex(done + tail, |done|) == []
  {
    var text := done + tail;
    forall p | |done| <= p < |text| ensures text[p] != '#' {
      assert text[p] == tail[p - |done|];
    }
    NoHashNoMatch(text, |done|);
  }

  /** Text without a `#` from `from` onwards yields no match. */
  lemma {:induction false} NoHashNoMatch(text: string, from: nat)
    requires forall p :: from <= p < |text| ==> text[p] != '#'
    ensures FindAllHex(text, from) == []
    decreases |text| - from
  {
    if from < |text| {
      assert MatchAt(text, from) == None;
      NoHashNoMatch(text, from + 1);
    }
  }
}
