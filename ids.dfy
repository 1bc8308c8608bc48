/** The id validator of backend/src/utils/ids.ts: the UUID-v4 shape, letters in either case. */
module Ids {
  import opened Text

  /** [0-9a-f] under the regex's `i` flag. */
  predicate IsHexDigit(c: char) {
    '0' <= c <= '9' || 'a' <= c <= 'f' || 'A' <= c <= 'F'
  }

  /** [89ab] under the `i` flag: the RFC 4122 variant nibble. */
  predicate IsVariantDigit(c: char) {
    c == '8' || c == '9' || c == 'a' || c == 'b' || c == 'A' || c == 'B'
  }

  predicate AllHex(s: string) {
    forall i :: 0 <= i < |s| ==> IsHexDigit(s[i])
  }

  /** /^[0-9a-f]{8}-[0-9a-f]{4}-4[0-9a-f]{3}-[89ab][0-9a-f]{3}-[0-9a-f]{12}$/i, read position
      by position: the pattern has no alternation or repetition of variable length, so a match
      is exactly 36 characters with a fixed character class at each position. */
  predicate IsValidId(id: string) {
    && |id| == 36
    && AllHex(id[0..8]) && id[8] == '-'
    && AllHex(id[9..13]) && id[13] == '-'
    && id[14] == '4' && AllHex(id[15..18]) && id[18] == '-'
    && IsVariantDigit(id[19]) && AllHex(id[20..23]) && id[23] == '-'
    && AllHex(id[24..36])
  }

  /** The ids uuid's v4() hands out: strings the validator accepts. Where the source draws a
      fresh uuid, the model takes one as a parameter. */
  type Uuid = s: string | IsValidId(s) witness NilId()

  /** The all-zero version-4 id "00000000-0000-4000-8000-000000000000": accepted. */
  function NilId(): (r: string)
    ensures IsValidId(r)
  {
    GroupsAccepted("00000000", "0000", "4000", "8000", "000000000000");
    Dashed("00000000", "0000", "4000", "8000", "000000000000")
  }

  /** An accepted id is built from hex digits and dashes only, so it holds no '.' and no '/'
      and is safe as the stem of a file name. */
  lemma ValidIdIsPlainStem(id: string)
    requires IsValidId(id)
    ensures |id| == 36 && '.' !in id && '/' !in id && id[0] != '.'
  {
    forall k | 0 <= k < 36
      ensures id[k] != '.' && id[k] != '/'
    {
      if k < 8 { assert id[0..8][k] == id[k]; }
      else if 9 <= k < 13 { assert id[9..13][k - 9] == id[k]; }
      else if 15 <= k < 18 { assert id[15..18][k - 15] == id[k]; }
      else if 20 <= k < 23 { assert id[20..23][k - 20] == id[k]; }
      else if 24 <= k { assert id[24..36][k - 24] == id[k]; }
    }
  }

  /** The five groups of a candidate id, as the regex reads them. */
  predicate GroupsMatch(g1: string, g2: string, g3: string, g4: string, g5: string) {
    && |g1| == 8 && AllHex(g1)
    && |g2| == 4 && AllHex(g2)
    && |g3| == 4 && g3[0] == '4' && AllHex(g3[1..])
    && |g4| == 4 && IsVariantDigit(g4[0]) && AllHex(g4[1..])
    && |g5| == 12 && AllHex(g5)
  }

  function Dashed(g1: string, g2: string, g3: string, g4: string, g5: string): string {
    g1 + "-" + g2 + "-" + g3 + "-" + g4 + "-" + g5
  }

  /** Any five groups of the right shapes, joined by dashes, are accepted. */
  lemma GroupsAccepted(g1: string, g2: string, g3: string, g4: string, g5: string)
    requires GroupsMatch(g1, g2, g3, g4, g5)
    ensures IsValidId(Dashed(g1, g2, g3, g4, g5))
  {
    var id := Dashed(g1, g2, g3, g4, g5);
    assert id[0..8] == g1;
    assert id[9..13] == g2;
    assert id[14..18] == g3;
    assert id[15..18] == g3[1..];
    assert id[19..23] == g4;
    assert id[20..23] == g4[1..];
    assert id[24..36] == g5;
  }

  /** Every accepted id is five such groups joined by dashes, so it has length 36, its third
      group starts with '4' and its fourth with one of 8, 9, a, b (either case). */
  lemma AcceptedIsGroups(id: string)
    requires IsValidId(id)
    ensures id == Dashed(id[0..8], id[9..13], id[14..18], id[19..23], id[24..36])
    ensures GroupsMatch(id[0..8], id[9..13], id[14..18], id[19..23], id[24..36])
    ensures |id| == 36 && id[14] == '4' && IsVariantDigit(id[19])
  {
    assert id[14..18][1..] == id[15..18];
    assert id[19..23][1..] == id[20..23];
    assert id == Dashed(id[0..8], id[9..13], id[14..18], id[19..23], id[24..36]);
  }

  lemma HexUnderLower(c: char)
    ensures IsHexDigit(c) <==> IsHexDigit(LowerChar(c))
    ensures IsVariantDigit(c) <==> IsVariantDigit(LowerChar(c))
    ensures c == '-' <==> LowerChar(c) == '-'
    ensures c == '4' <==> LowerChar(c) == '4'
  {
  }

  lemma AllHexUnderLower(s: string, i: nat, j: nat)
    requires i <= j <= |s|
    ensures AllHex(s[i..j]) <==> AllHex(Lower(s)[i..j])
  {
    forall k | i <= k < j {
      HexUnderLower(s[k]);
    }
    assert forall k :: 0 <= k < j - i ==> s[i..j][k] == s[i + k] && Lower(s)[i..j][k] == LowerChar(s[i + k]);
  }

  /** The `i` flag: an id is accepted iff its lower-cased form is. */
  lemma ValidIdCaseInsensitive(id: string)
    ensures IsValidId(id) <==> IsValidId(Lower(id))
  {
    if |id| == 36 {
      var l := Lower(id);
      AllHexUnderLower(id, 0, 8);
      AllHexUnderLower(id, 9, 13);
      AllHexUnderLower(id, 15, 18);
      AllHexUnderLower(id, 20, 23);
      AllHexUnderLower(id, 24, 36);
      HexUnderLower(id[8]);
      HexUnderLower(id[13]);
      HexUnderLower(id[14]);
      HexUnderLower(id[18]);
      HexUnderLower(id[19]);
      HexUnderLower(id[23]);
    }
  }
}
