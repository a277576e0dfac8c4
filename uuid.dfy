/**
 * The identifier shape the validators accept: the regular expression
 * `^[0-9a-fA-F]{8}-[0-9a-fA-F]{4}-[0-9a-fA-F]{4}-[0-9a-fA-F]{4}-[0-9a-fA-F]{12}$`.
 */
module Uuid {

  /** The character class `[0-9a-fA-F]`. */
  predicate IsHexDigit(c: char) {
    '0' <= c <= '9' || 'a' <= c <= 'f' || 'A' <= c <= 'F'
  }

  predicate AllHex(s: string) {
    forall i :: 0 <= i < |s| ==> IsHexDigit(s[i])
  }

  /** The regular expression read group by group: five hex runs of 8, 4, 4, 4 and 12 joined by hyphens, anchored at both ends. */
  predicate MatchesPattern(s: string) {
    && |s| == 36
    && AllHex(s[0..8]) && s[8] == '-'
    && AllHex(s[9..13]) && s[13] == '-'
    && AllHex(s[14..18]) && s[18] == '-'
    && AllHex(s[19..23]) && s[23] == '-'
    && AllHex(s[24..36])
  }

  /** The positions where a hyphen must stand. */
  predicate IsHyphenPosition(i: int) {
    i == 8 || i == 13 || i == 18 || i == 23
  }

  /** The same shape stated position by position. */
  predicate Positional(s: string) {
    |s| == 36 && forall i :: 0 <= i < 36 ==> if IsHyphenPosition(i) then s[i] == '-' else IsHexDigit(s[i])
  }

  /**
   * What `regexUuid.test(s)` answers, read position by position: it agrees
   * with the group-by-group reading of the pattern, and an identifier is
   * never empty and never contains a comma or a space.
   */
  predicate IsUuid(s: string)
    ensures IsUuid(s) <==> MatchesPattern(s)
    ensures IsUuid(s) ==> |s| > 0 && ',' !in s && ' ' !in s
  {
    PositionalMatchesPattern(s);
    PositionalHasNoSeparators(s);
    Positional(s)
  }

  lemma PositionalMatchesPattern(s: string)
    ensures Positional(s) <==> MatchesPattern(s)
  {
    if MatchesPattern(s) {
      forall i | 0 <= i < 36
        ensures if IsHyphenPosition(i) then s[i] == '-' else IsHexDigit(s[i])
      {
        if i < 8 { assert s[0..8][i] == s[i]; }
        else if 8 < i < 13 { assert s[9..13][i - 9] == s[i]; }
        else if 13 < i < 18 { assert s[14..18][i - 14] == s[i]; }
        else if 18 < i < 23 { assert s[19..23][i - 19] == s[i]; }
        else if 23 < i { assert s[24..36][i - 24] == s[i]; }
      }
    }
    if Positional(s) {
      assert AllHex(s[0..8]) by { forall k | 0 <= k < 8 ensures IsHexDigit(s[0..8][k]) { assert s[0..8][k] == s[k]; } }
      assert AllHex(s[9..13]) by { forall k | 0 <= k < 4 ensures IsHexDigit(s[9..13][k]) { assert s[9..13][k] == s[9 + k]; } }
      assert AllHex(s[14..18]) by { forall k | 0 <= k < 4 ensures IsHexDigit(s[14..18][k]) { assert s[14..18][k] == s[14 + k]; } }
      assert AllHex(s[19..23]) by { forall k | 0 <= k < 4 ensures IsHexDigit(s[19..23][k]) { assert s[19..23][k] == s[19 + k]; } }
      assert AllHex(s[24..36]) by { forall k | 0 <= k < 12 ensures IsHexDigit(s[24..36][k]) { assert s[24..36][k] == s[24 + k]; } }
    }
  }

  lemma PositionalHasNoSeparators(s: string)
    ensures Positional(s) ==> |s| > 0 && ',' !in s && ' ' !in s
  {
    if Positional(s) {
      forall i | 0 <= i < |s| ensures s[i] != ',' && s[i] != ' ' {
        assert if IsHyphenPosition(i) then s[i] == '-' else IsHexDigit(s[i]);
      }
    }
  }
}
