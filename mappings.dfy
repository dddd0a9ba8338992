/**
 * The character tables of `create_mappings.py`: the punctuation set and its
 * translation table, and the two width-folding tables. The pickle files the
 * source uses as a cache are not modelled; each table is the value the source
 * computes when no cache exists.
 */
module Mappings {
  import opened Text

  /** `map(chr, range(lo, hi))`: the characters with code points `lo` to `hi - 1`. */
  function CharRange(lo: int, hi: int): (r: string)
    requires (0 <= lo <= hi <= 0xD800) || (0xE000 <= lo <= hi <= 0x11_0000)
    ensures |r| == hi - lo
    ensures forall i :: 0 <= i < |r| ==> r[i] as int == lo + i
  {
    seq(hi - lo, i requires 0 <= i < hi - lo => (lo + i) as char)
  }

  // ---------------------------------------------------------------------------
  // The punctuation set (create_mappings.py, lines 113-119)
  // ---------------------------------------------------------------------------

  /** `string.punctuation`. */
  const AsciiPunctuation: string := "!\"#$%&'()*+,-./:;<=>?@[\\]^_`{|}~"

  /** Fullwidth forms and CJK brackets and marks (line 115). */
  const FullwidthPunctuation: string :=
    FullwidthPunctuation1 + FullwidthPunctuation2 + FullwidthPunctuation3 + FullwidthPunctuation4 + FullwidthPunctuation5

  // The pieces of the fullwidth list, sixteen characters each but the last.
  const FullwidthPunctuation1: string := "\U{FF01}\U{FF02}\U{FF03}\U{FF04}\U{FF05}\U{FF06}\U{FF07}\U{FF08}\U{FF09}\U{FF0A}\U{FF0B}\U{FF0C}\U{FF0D}\U{FF0E}\U{FF0F}\U{FF1A}"
  const FullwidthPunctuation2: string := "\U{FF1B}\U{FF1C}\U{FF1D}\U{FF1E}\U{FF1F}\U{FF20}\U{FF3B}\U{FF3C}\U{FF3D}\U{FF3E}\U{FF3F}\U{FF40}\U{FF5B}\U{FF5C}\U{FF5D}\U{FF5E}"
  const FullwidthPunctuation3: string := "\U{3001}\U{3002}\U{3003}\U{3008}\U{3009}\U{300A}\U{300B}\U{300C}\U{300D}\U{300E}\U{300F}\U{3010}\U{3011}\U{3014}\U{3015}\U{3016}"
  const FullwidthPunctuation4: string := "\U{3017}\U{3018}\U{3019}\U{301A}\U{301B}\U{301C}\U{301D}\U{301E}\U{301F}\U{FF5F}\U{FF60}\U{FF61}\U{FF62}\U{FF63}\U{FF64}\U{FF65}"
  const FullwidthPunctuation5: string := "\U{30A0}\U{3030}\U{2985}\U{2986}"

  /** Quotation-mark variants (line 116). */
  const QuotationMarks: string :=
    "\U{AB}\U{2039}\U{BB}\U{203A}\U{201E}\U{201A}\U{201C}\U{201F}\U{2018}\U{201B}\U{201D}\U{2019}\U{275B}\U{275C}\U{275F}\U{275D}"
    + "\U{275E}\U{276E}\U{276F}\U{2E42}\U{301D}\U{301E}\U{301F}\U{FF02}"

  /** Full stops, commas, question marks, dashes and other marks of many scripts (line 117). */
  const ScriptPunctuation: string :=
    ScriptPunctuation1 + ScriptPunctuation2 + ScriptPunctuation3
    + ScriptPunctuation4 + ScriptPunctuation5 + ScriptPunctuation6

  // The pieces of the list of script punctuation, sixteen characters each but the last.
  const ScriptPunctuation1: string := ".\U{964}\U{589}\U{3002}\U{6D4}\U{2CF9}\U{701}\U{1362}\U{166E}\U{1803}\U{2CFE}\U{A4FF}\U{A60E}\U{A6F3}\U{83D}\U{1B5F}"
  const ScriptPunctuation2: string := ",\U{60C}\U{3001}\U{55D}\U{7F8}\U{1363}\U{1808}\U{14FE}\U{A60D}\U{A6F5}\U{1B5E}?\U{37E}\U{BF}\U{61F}\U{55E}"
  const ScriptPunctuation3: string := "\U{706}\U{1367}\U{2CFA}\U{2CFB}\U{A60F}\U{16F7}\U{11143}\U{AAF1}!\U{A1}\U{7F9}\U{1944}\U{B7}\U{1039F}\U{103D0}\U{12470}"
  const ScriptPunctuation4: string := "\U{1361}\U{1680}\U{1091F}\U{830}\U{2014}\U{2013}\U{2012}\U{2010}\U{2043}\U{FE63}\U{FF0D}\U{58A}\U{1806};\U{387}\U{61B}"
  const ScriptPunctuation5: string := "\U{1364}\U{16F6}\U{2024}:\U{1365}\U{A6F4}\U{1B5D}\U{2026}\U{FE19}\U{EAF}\U{AB}\U{2039}\U{BB}\U{203A}\U{201E}\U{201A}"
  const ScriptPunctuation6: string := "\U{201C}\U{201F}\U{2018}\U{201B}\U{201D}\U{2019}\""

  /**
   * Membership in the union of the four listed strings and the ranges
   * U+2010..U+2027, U+2030..U+205E and U+2E00..U+2E4F (lines 118-119).
   */
  predicate IsPunctuation(c: char)
  {
    || c in AsciiPunctuation
    || c in FullwidthPunctuation
    || c in QuotationMarks
    || c in ScriptPunctuation
    || '\U{2010}' <= c < '\U{2028}'
    || '\U{2030}' <= c < '\U{205F}'
    || '\U{2E00}' <= c < '\U{2E50}'
  }

  /** The punctuation set of lines 113-119. */
  const PunctuationSet: set<char> := set c: char | IsPunctuation(c)

  /** `str.maketrans({key: " " for key in punctuation})` (line 123). */
  function PunctuationMapping(): (m: map<char, string>)
    ensures forall c :: c in m <==> c in PunctuationSet
    ensures forall c :: c in m ==> m[c] == " "
  {
    map c | c in PunctuationSet :: " "
  }

  // ---------------------------------------------------------------------------
  // Fullwidth ASCII to halfwidth ASCII (lines 21-47)
  // ---------------------------------------------------------------------------

  /** `dict(zip(ks, vs))`: pairs up to the shorter length; a later key overrides an earlier one. */
  function DictFromZip<K, V>(ks: seq<K>, vs: seq<V>): (m: map<K, V>)
    ensures forall k :: k in m ==> k in ks && m[k] in vs
  {
    if |ks| == 0 || |vs| == 0 then map[]
    else
      var n := if |ks| < |vs| then |ks| else |vs|;
      DictFromZip(ks[..n - 1], vs[..n - 1])[ks[n - 1] := vs[n - 1]]
  }

  /** An entry is the last value zipped with its key. */
  lemma {:induction false} DictFromZipAt<K, V>(ks: seq<K>, vs: seq<V>, i: nat)
    requires i < |ks| && i < |vs|
    requires forall j :: i < j < |ks| && j < |vs| ==> ks[j] != ks[i]
    ensures ks[i] in DictFromZip(ks, vs) && DictFromZip(ks, vs)[ks[i]] == vs[i]
    decreases |ks|
  {
    var n := if |ks| < |vs| then |ks| else |vs|;
    if i < n - 1 {
      DictFromZipAt(ks[..n - 1], vs[..n - 1], i);
    }
  }

  const AsciiFullSources: string :=
    "\U{3000}" + CharRange(0xFF01, 0xFF61) + CharRange(0xFFE0, 0xFFE7) + "\U{3007}"

  const AsciiHalfTargets: string :=
    CharRange(0x0020, 0x007F) + "\U{2985}\U{2986}\U{A2}\U{A3}\U{AC}\U{AF}\U{A6}\U{A5}\U{20A9}" + "0"

  const AsciiFullToHalfMapping: map<char, char> := DictFromZip(AsciiFullSources, AsciiHalfTargets)

  // ---------------------------------------------------------------------------
  // Halfwidth Japanese to fullwidth Japanese (lines 64-93)
  // ---------------------------------------------------------------------------

  const JapHalfSources: string := CharRange(0xFF61, 0xFFA0) + CharRange(0xFFE8, 0xFFEF)

  /** The first six targets: the halfwidth punctuation and wo of lines 75-76. */
  const JapFullMarks: string := "\U{3002}\U{300C}\U{300D}\U{3001}\U{30FB}\U{30F2}"

  /** Small a, i, u, e, o, ya and yu (line 77). */
  const JapFullSmall: string := "\U{30A1}\U{30A3}\U{30A5}\U{30A7}\U{30A9}\U{30E3}\U{30E5}"

  /** The targets after the fourteenth, from small tsu on (lines 77-89). */
  const JapFullRest: string :=
    "\U{30C3}\U{30FC}"
    + "\U{30A2}\U{30A4}\U{30A6}\U{30A8}\U{30AA}\U{30AB}\U{30AD}\U{30AF}\U{30B1}\U{30B3}\U{30B5}\U{30B7}\U{30B9}\U{30BB}\U{30BD}\U{30BF}"
    + "\U{30C1}\U{30C4}\U{30C6}\U{30C8}\U{30CA}\U{30CB}\U{30CC}\U{30CD}\U{30CE}\U{30CF}\U{30D2}\U{30D5}\U{30D8}\U{30DB}\U{30DE}\U{30DF}"
    + "\U{30E0}\U{30E1}\U{30E2}\U{30E4}\U{30E6}\U{30E8}\U{30E9}\U{30EA}\U{30EB}\U{30EC}\U{30ED}\U{30EF}\U{30F3}\U{309B}\U{309C}\U{FF5C}"
    + "\U{2190}\U{2191}\U{2192}\U{2193}\U{25A0}\U{25CB}"

  /** The target list of lines 75-89, as written: the fourteenth target is U+30E5 again. */
  const JapFullTargets: string := JapFullMarks + JapFullSmall + "\U{30E5}" + JapFullRest

  const JapHalfToFullMapping: map<char, char> := DictFromZip(JapHalfSources, JapFullTargets)

  // ---------------------------------------------------------------------------
  // Properties of the tables
  // ---------------------------------------------------------------------------

  /** The punctuation set holds `string.punctuation` and the three code-point ranges. */
  lemma PunctuationSetCovers(c: char)
    ensures c in AsciiPunctuation ==> c in PunctuationSet
    ensures '\U{2010}' <= c <= '\U{2027}' ==> c in PunctuationSet
    ensures '\U{2030}' <= c <= '\U{205E}' ==> c in PunctuationSet
    ensures '\U{2E00}' <= c <= '\U{2E4F}' ==> c in PunctuationSet
  {
  }

  /**
   * U+1680 OGHAM SPACE MARK is listed on line 117 although the comment on
   * line 108 says no punctuation character is whitespace.
   */
  lemma OghamSpaceMarkIsPunctuationAndSpace()
    ensures '\U{1680}' in PunctuationSet && IsSpace('\U{1680}')
  {
    assert '\U{1680}' in ScriptPunctuation;
  }

  lemma AsciiPunctuationNotSpace(c: char)
    requires c in AsciiPunctuation
    ensures !IsSpace(c)
  {
  }

  // Whitespace is ruled out piece by piece; each piece is a short literal.

  lemma FullwidthPunctuation1NotSpace(c: char)
    requires c in FullwidthPunctuation1
    ensures !IsSpace(c)
  {
  }

  lemma FullwidthPunctuation2NotSpace(c: char)
    requires c in FullwidthPunctuation2
    ensures !IsSpace(c)
  {
  }

  lemma FullwidthPunctuation3NotSpace(c: char)
    requires c in FullwidthPunctuation3
    ensures !IsSpace(c)
  {
  }

  lemma FullwidthPunctuation4NotSpace(c: char)
    requires c in FullwidthPunctuation4
    ensures !IsSpace(c)
  {
  }

  lemma FullwidthPunctuation5NotSpace(c: char)
    requires c in FullwidthPunctuation5
    ensures !IsSpace(c)
  {
  }

  lemma FullwidthPunctuationNotSpace(c: char)
    requires c in FullwidthPunctuation
    ensures !IsSpace(c)
  {
    if c in FullwidthPunctuation1 {
      FullwidthPunctuation1NotSpace(c);
    } else if c in FullwidthPunctuation2 {
      FullwidthPunctuation2NotSpace(c);
    } else if c in FullwidthPunctuation3 {
      FullwidthPunctuation3NotSpace(c);
    } else if c in FullwidthPunctuation4 {
      FullwidthPunctuation4NotSpace(c);
    } else {
      FullwidthPunctuation5NotSpace(c);
    }
  }

  lemma QuotationMarksNotSpace(c: char)
    requires c in QuotationMarks
    ensures !IsSpace(c)
  {
  }

  lemma ScriptPunctuation1NotSpace(c: char)
    requires c in ScriptPunctuation1
    ensures !IsSpace(c)
  {
  }

  lemma ScriptPunctuation2NotSpace(c: char)
    requires c in ScriptPunctuation2
    ensures !IsSpace(c)
  {
  }

  lemma ScriptPunctuation3NotSpace(c: char)
    requires c in ScriptPunctuation3
    ensures !IsSpace(c)
  {
  }

  lemma ScriptPunctuation4NotSpace(c: char)
    requires c in ScriptPunctuation4 && c != '\U{1680}'
    ensures !IsSpace(c)
  {
  }

  lemma ScriptPunctuation5NotSpace(c: char)
    requires c in ScriptPunctuation5
    ensures !IsSpace(c)
  {
  }

  lemma ScriptPunctuation6NotSpace(c: char)
    requires c in ScriptPunctuation6
    ensures !IsSpace(c)
  {
  }

  lemma ScriptPunctuationNotSpace(c: char)
    requires c in ScriptPunctuation && c != '\U{1680}'
    ensures !IsSpace(c)
  {
    if c in ScriptPunctuation1 {
      ScriptPunctuation1NotSpace(c);
    } else if c in ScriptPunctuation2 {
      ScriptPunctuation2NotSpace(c);
    } else if c in ScriptPunctuation3 {
      ScriptPunctuation3NotSpace(c);
    } else if c in ScriptPunctuation4 {
      ScriptPunctuation4NotSpace(c);
    } else if c in ScriptPunctuation5 {
      ScriptPunctuation5NotSpace(c);
    } else {
      ScriptPunctuation6NotSpace(c);
    }
  }

  /** Every other punctuation character is not whitespace. */
  lemma PunctuationIsNotSpace(c: char)
    requires c in PunctuationSet && c != '\U{1680}'
    ensures !IsSpace(c)
  {
    if c in AsciiPunctuation {
      AsciiPunctuationNotSpace(c);
    } else if c in FullwidthPunctuation {
      FullwidthPunctuationNotSpace(c);
    } else if c in QuotationMarks {
      QuotationMarksNotSpace(c);
    } else if c in ScriptPunctuation {
      ScriptPunctuationNotSpace(c);
    }
  }

  /** Both zipped sequences have 105 elements, so `zip` truncates nothing. */
  lemma AsciiFullToHalfLengths()
    ensures |AsciiFullSources| == 105 && |AsciiHalfTargets| == 105
  {
  }

  lemma AsciiFullSourceAt(j: nat)
    requires j < |AsciiFullSources|
    ensures j == 0 ==> AsciiFullSources[j] as int == 0x3000
    ensures 1 <= j <= 96 ==> AsciiFullSources[j] as int == 0xFF00 + j
    ensures 97 <= j <= 103 ==> AsciiFullSources[j] as int == 0xFFE0 + j - 97
    ensures j == 104 ==> AsciiFullSources[j] as int == 0x3007
  {
  }

  /** The keys of the fullwidth table are pairwise distinct. */
  lemma AsciiFullSourcesDistinct(i: nat, j: nat)
    requires i < j < |AsciiFullSources|
    ensures AsciiFullSources[i] != AsciiFullSources[j]
  {
    AsciiFullSourceAt(i);
    AsciiFullSourceAt(j);
  }

  /**
   * The ideographic space maps to the space, U+FF01..U+FF5E map to
   * U+0021..U+007E (an offset of 0xFEE0), and the ideographic zero maps to '0'.
   */
  lemma AsciiFullToHalfEntries(c: char)
    ensures '\U{3000}' in AsciiFullToHalfMapping && AsciiFullToHalfMapping['\U{3000}'] == ' '
    ensures '\U{3007}' in AsciiFullToHalfMapping && AsciiFullToHalfMapping['\U{3007}'] == '0'
    ensures '\U{FF01}' <= c <= '\U{FF5E}' ==>
              c in AsciiFullToHalfMapping && AsciiFullToHalfMapping[c] as int == c as int - 0xFEE0
  {
    forall j | 0 < j < |AsciiFullSources| { AsciiFullSourcesDistinct(0, j); }
    DictFromZipAt(AsciiFullSources, AsciiHalfTargets, 0);
    DictFromZipAt(AsciiFullSources, AsciiHalfTargets, 104);
    if '\U{FF01}' <= c <= '\U{FF5E}' {
      var i := c as int - 0xFF00;
      AsciiFullSourceAt(i);
      forall j | i < j < |AsciiFullSources| { AsciiFullSourcesDistinct(i, j); }
      DictFromZipAt(AsciiFullSources, AsciiHalfTargets, i);
    }
  }

  /** The 70 halfwidth code points pair position by position with the 70 listed targets. */
  lemma JapHalfToFullPairs(i: nat)
    requires i < |JapHalfSources|
    ensures |JapHalfSources| == 70 && |JapFullTargets| == 70
    ensures JapHalfSources[i] in JapHalfToFullMapping
    ensures JapHalfToFullMapping[JapHalfSources[i]] == JapFullTargets[i]
  {
    DictFromZipAt(JapHalfSources, JapFullTargets, i);
  }

  /**
   * Because the target list repeats U+30E5, halfwidth U+FF6E maps to U+30E5
   * (small yu), just as U+FF6D does, and not to U+30E7 (small yo), which no
   * key maps to.
   */
  lemma JapHalfToFullSmallYo(c: char)
    ensures '\U{FF6E}' in JapHalfToFullMapping && JapHalfToFullMapping['\U{FF6E}'] == '\U{30E5}'
    ensures '\U{FF6D}' in JapHalfToFullMapping && JapHalfToFullMapping['\U{FF6D}'] == '\U{30E5}'
    ensures c in JapHalfToFullMapping ==> JapHalfToFullMapping[c] != '\U{30E7}'
  {
    JapHalfToFullPairs(13);
    JapHalfToFullPairs(12);
    assert JapHalfSources[13] == '\U{FF6E}' && JapHalfSources[12] == '\U{FF6D}';
    assert JapFullTargets[13] == '\U{30E5}';
    SmallYoNotListed();
  }

  lemma SmallYoNotListed()
    ensures '\U{30E7}' !in JapFullTargets
  {
  }

  /** The target list with U+30E7 (small yo) in the position of the second U+30E5. */
  const JapFullTargetsIntended: string := JapFullMarks + JapFullSmall + "\U{30E7}" + JapFullRest

  /** The halfwidth-to-fullwidth table built from the intended target list. */
  const JapHalfToFullIntended: map<char, char> := DictFromZip(JapHalfSources, JapFullTargetsIntended)

  /** The intended table pairs position by position, as the written one does. */
  lemma JapHalfToFullIntendedPairs(i: nat)
    requires i < |JapHalfSources|
    ensures |JapFullTargetsIntended| == 70
    ensures JapHalfSources[i] in JapHalfToFullIntended
    ensures JapHalfToFullIntended[JapHalfSources[i]] == JapFullTargetsIntended[i]
  {
    JapHalfToFullPairs(i);
    DictFromZipAt(JapHalfSources, JapFullTargetsIntended, i);
  }

  /** Small a, i, u, e, o, ya, yu, yo and tsu. */
  const SmallKana: string := "\U{30A1}\U{30A3}\U{30A5}\U{30A7}\U{30A9}\U{30E3}\U{30E5}\U{30E7}\U{30C3}"

  lemma SmallKanaDistinct(p: nat, q: nat)
    requires p < q < |SmallKana|
    ensures SmallKana[p] != SmallKana[q]
  {
    if p == 0 {
    } else if p == 1 {
    } else if p == 2 {
    } else if p == 3 {
    } else if p < 6 {
    } else {
    }
  }

  /**
   * In the intended table the nine small halfwidth kana U+FF67..U+FF6F map to
   * the nine small fullwidth kana, pairwise differently, and U+FF6E maps to
   * small yo.
   */
  lemma JapHalfToFullIntendedSmallKana(c: char, d: char)
    requires '\U{FF67}' <= c <= '\U{FF6F}' && '\U{FF67}' <= d <= '\U{FF6F}' && c != d
    ensures c in JapHalfToFullIntended && d in JapHalfToFullIntended
    ensures JapHalfToFullIntended[c] != JapHalfToFullIntended[d]
    ensures JapHalfToFullIntended[c] in SmallKana
    ensures '\U{FF6E}' in JapHalfToFullIntended && JapHalfToFullIntended['\U{FF6E}'] == '\U{30E7}'
  {
    var i: nat := c as int - 0xFF61;
    var j: nat := d as int - 0xFF61;
    IntendedSmallAt(i);
    IntendedSmallAt(j);
    IntendedSmallAt(13);
    assert JapHalfSources[i] == c && JapHalfSources[j] == d && JapHalfSources[13] == '\U{FF6E}';
    assert SmallKana[7] == '\U{30E7}';
    assert i != j;
    if i < j {
      SmallKanaDistinct(i - 6, j - 6);
    } else {
      SmallKanaDistinct(j - 6, i - 6);
    }
  }

  /** Position `i` of the sources, for `i` from 6 to 14, is a small kana key and maps to small kana `i - 6`. */
  lemma IntendedSmallAt(i: nat)
    requires 6 <= i < 15
    ensures JapHalfSources[i] as int == 0xFF61 + i
    ensures JapHalfSources[i] in JapHalfToFullIntended
    ensures JapHalfToFullIntended[JapHalfSources[i]] == SmallKana[i - 6]
  {
    assert SmallKana == JapFullSmall + "\U{30E7}\U{30C3}";
    assert |JapHalfSources| == 70;
    JapHalfToFullIntendedPairs(i);
    assert JapFullTargetsIntended[i] == SmallKana[i - 6];
  }

}
