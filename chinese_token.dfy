/**
 * The kinds of field a dictionary group holds, and the validator for the
 * order in which a generated dictionary lays them out.
 */
module ChineseTokens {

  /** `ChineseToken`: a closed enumeration of the three fields of a group. */
  datatype ChineseToken = Pinyin | Ideogram | Translation

  /** The four layouts the generator is asked for, one per output file. */
  const FullPinyinFirst: seq<ChineseToken> := [Pinyin, Ideogram, Translation]
  const ShortPinyinFirst: seq<ChineseToken> := [Pinyin, Ideogram]
  const FullHanFirst: seq<ChineseToken> := [Ideogram, Pinyin, Translation]
  const ShortHanFirst: seq<ChineseToken> := [Ideogram, Pinyin]

  /** `is_valid_format`: the format is one of the four layouts, compared as
      whole sequences (length and order both count). */
  predicate IsValidFormat(format: seq<ChineseToken>) {
    || format == FullPinyinFirst
    || format == ShortPinyinFirst
    || format == FullHanFirst
    || format == ShortHanFirst
  }

  /** How many times `token` occurs in `format`. */
  function Count(format: seq<ChineseToken>, token: ChineseToken): nat {
    if format == [] then 0
    else (if format[0] == token then 1 else 0) + Count(format[1..], token)
  }

  /** A format is valid exactly when it has two or three tokens, holds the
      pinyin once and the ideogram once, and a translation only in last place. */
  lemma ValidFormatIff(format: seq<ChineseToken>)
    ensures IsValidFormat(format) <==>
      && 2 <= |format| <= 3
      && Count(format, Pinyin) == 1
      && Count(format, Ideogram) == 1
      && (forall i :: 0 <= i < |format| - 1 ==> format[i] != Translation)
  {
    if 2 <= |format| <= 3 {
      var tail := format[1..];
      assert Count(format, Pinyin) == (if format[0] == Pinyin then 1 else 0) + Count(tail, Pinyin);
      assert Count(format, Ideogram) == (if format[0] == Ideogram then 1 else 0) + Count(tail, Ideogram);
      if |format| == 2 {
        assert tail[1..] == [];
      } else {
        assert tail[1..] == [format[2]] && tail[1..][1..] == [];
      }
    }
  }

  /** In a valid format the pinyin and the ideogram come first, in either
      order, and the translation, when asked for, comes last. */
  lemma ValidFormatLayout(format: seq<ChineseToken>)
    requires IsValidFormat(format)
    ensures |format| == 2 || |format| == 3
    ensures {format[0], format[1]} == {Pinyin, Ideogram}
    ensures |format| == 3 ==> format[2] == Translation
  {
  }

  /** The shapes the validator turns away: fewer than two or more than three
      tokens, a translation first, or a token given twice. */
  lemma InvalidFormats(format: seq<ChineseToken>)
    requires || |format| < 2
             || |format| > 3
             || format[0] == Translation
             || (exists i, j :: 0 <= i < j < |format| && format[i] == format[j])
    ensures !IsValidFormat(format)
  {
  }
}
