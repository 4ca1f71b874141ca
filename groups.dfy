/**
 * The group layer of the dictionary generator: `split` parses the inside of
 * one `(pinyin ideogram [translation])` group, `restructure` writes a group
 * back out with its fields in a requested order.
 */
module Groups {
  import opened Builtins
  import opened ChineseTokens

  /** A headword: its pinyin and its ideogram (the two-field `ChineseStruct`). */
  datatype ChineseStruct = ChineseStruct(pinyin: string, ideogram: string)

  /** The exceptions the generator raises. */
  datatype Error =
    | InvalidLine(line: string)                 // `split`: under two characters left
    | NotEnoughTokens(line: string)             // `split`: under two tokens
    | InvalidFormat(format: seq<ChineseToken>)  // `restructure`: not one of the four layouts
    | SamePath                                  // generation: input path equals output path

  datatype Result<+T> = Ok(value: T) | Err(error: Error)

  /** The group text after `strip()` and `re.sub('\s+', ' ', ...)`. */
  function Normalize(group: string): string {
    CollapseRuns(Strip(group), Whitespace, ' ')
  }

  /** `line.split(' ')` on the normalised group. */
  function Words(group: string): seq<string> {
    SplitOn(Normalize(group), " ")
  }

  /** The normalised group is trimmed, its only whitespace is the plain space,
      and no two spaces stand side by side. */
  lemma NormalizeShape(group: string)
    ensures var n := Normalize(group);
      && Trimmed(n)
      && SingleSeparated(n, ' ')
      && (forall i :: 0 <= i < |n| && n[i] in Whitespace ==> n[i] == ' ')
  {
    assert ' ' in Whitespace;
    StripShape(group);
    CollapseRunsSeparated(Strip(group), Whitespace, ' ');
  }

  /** The words of a group are non-empty, hold no whitespace, and rejoined
      with single spaces they give the normalised group back. */
  lemma WordsShape(group: string)
    requires Normalize(group) != []
    ensures var words := Words(group);
      && Join(" ", words) == Normalize(group)
      && forall k :: 0 <= k < |words| ==> words[k] != [] && NoSpace(words[k])
  {
    var n := Normalize(group);
    NormalizeShape(group);
    JoinSplitOn(n, " ");
    SplitOnPiecesNonEmpty(n, ' ');
    SplitOnPiecesOutside(n, ' ', Whitespace);
  }

  /** `split`: the headword is the first two words, the translation the rest
      joined by single spaces, or empty when there are only two words. */
  function Split(group: string): Result<(ChineseStruct, string)> {
    var line := Normalize(group);
    if |line| < 2 then Err(InvalidLine(line))
    else
      var tokens := SplitOn(line, " ");
      if |tokens| < 2 then Err(NotEnoughTokens(line))
      else if |tokens| == 2 then Ok((ChineseStruct(tokens[0], tokens[1]), ""))
      else Ok((ChineseStruct(tokens[0], tokens[1]), Join(" ", tokens[2..])))
  }

  /** A headword as `split` produces it: both fields non-empty, neither with whitespace. */
  predicate WellFormedEntry(entry: ChineseStruct) {
    && entry.pinyin != [] && NoSpace(entry.pinyin)
    && entry.ideogram != [] && NoSpace(entry.ideogram)
  }

  /** The normalised group is Python's `' '.join(group.split())`. */
  lemma NormalizeIsJoinedWords(group: string)
    ensures Normalize(group) == Join(" ", SplitRuns(group, Whitespace))
  {
    StripShape(group);
    CollapseRunsJoin(Strip(group), Whitespace, ' ');
    SplitRunsStrip(group, Whitespace);
  }

  /** The tokens of the normalised group are the words `group.split()`
      returns; a blank group gives the single empty token, as
      `''.split(' ')` does. */
  lemma WordsArePythonWords(group: string)
    ensures var ws := SplitRuns(group, Whitespace);
      Words(group) == if ws == [] then [[]] else ws
  {
    var ws := SplitRuns(group, Whitespace);
    NormalizeIsJoinedWords(group);
    if ws != [] {
      SplitRunsShape(group, Whitespace);
      forall k | 0 <= k < |ws| ensures ' ' !in ws[k] {
        assert Avoids(ws[k], Whitespace);
      }
      SplitOnJoin(ws, ' ');
    }
  }

  /** `split` in terms of the words of the raw group: it raises exactly when
      there are fewer than two, and otherwise returns the first two as the
      headword and the rest joined by single spaces as the translation. */
  lemma SplitByWords(group: string)
    ensures var ws := SplitRuns(group, Whitespace);
      && (Split(group).Err? <==> |ws| < 2)
      && (Split(group).Ok? ==> Split(group).value == (ChineseStruct(ws[0], ws[1]), Join(" ", ws[2..])))
  {
    WordsArePythonWords(group);
    SplitFailsIff(group);
  }

  /** `split` raises exactly when the group holds fewer than two words. */
  lemma SplitFailsIff(group: string)
    ensures Split(group).Err? <==> |Words(group)| < 2
  {
    var n := Normalize(group);
    if |Words(group)| >= 2 {
      WordsShape(group);
      var words := Words(group);
      assert Join(" ", words) == words[0] + " " + Join(" ", words[1..]);
      assert |n| >= 2;
    }
  }

  /** Which exception `split` raises: "invalid line" exactly when the
      normalised group has under two characters, "not enough tokens" exactly
      when it has two or more but no space; each carries the normalised text. */
  lemma SplitErrors(group: string)
    ensures var n := Normalize(group);
      && (Split(group) == Err(InvalidLine(n)) <==> |n| < 2)
      && (Split(group) == Err(NotEnoughTokens(n)) <==> |n| >= 2 && ' ' !in n)
  {
    var n := Normalize(group);
    if |n| >= 2 {
      if ' ' !in n {
        SplitOnAbsent(n, ' ');
      } else {
        JoinSplitOn(n, " ");
        SplitOnPiecesFree(n, ' ');
      }
    }
  }

  /** What `split` returns: the first two words as the headword, and a
      trimmed translation that is empty exactly when there are only two
      words; the fields rejoined by single spaces spell the normalised group. */
  lemma SplitFields(group: string)
    requires Split(group).Ok?
    ensures var (entry, translation) := Split(group).value;
      var words := Words(group);
      && entry == ChineseStruct(words[0], words[1])
      && WellFormedEntry(entry)
      && Trimmed(translation)
      && (translation == [] <==> |words| == 2)
      && Join(" ", [entry.pinyin, entry.ideogram] + (if translation == [] then [] else [translation]))
         == Normalize(group)
  {
    var words := Words(group);
    WordsShape(group);
    var (entry, translation) := Split(group).value;
    assert Join(" ", words) == words[0] + " " + Join(" ", words[1..]);
    if |words| == 2 {
      assert words[1..] == [words[1]];
      assert Join(" ", [entry.pinyin, entry.ideogram]) == words[0] + " " + words[1];
    } else {
      var rest := words[2..];
      assert words[1..][1..] == rest && words[1..][0] == words[1];
      assert Join(" ", words[1..]) == words[1] + " " + Join(" ", rest);
      JoinTrimmed(rest);
      var fields := [entry.pinyin, entry.ideogram, translation];
      assert fields[1..] == [words[1], translation] && fields[1..][1..] == [translation];
      assert Join(" ", fields[1..]) == words[1] + " " + translation;
      assert Join(" ", fields) == words[0] + " " + (words[1] + " " + translation);
    }
  }

  /** Non-empty words without whitespace joined by single spaces make a
      non-empty trimmed string. */
  lemma {:induction false} JoinTrimmed(words: seq<string>)
    requires words != []
    requires forall k :: 0 <= k < |words| ==> words[k] != [] && NoSpace(words[k])
    ensures var j := Join(" ", words); j != [] && Trimmed(j)
  {
    if |words| > 1 {
      JoinTrimmed(words[1..]);
      var j := Join(" ", words);
      var r := Join(" ", words[1..]);
      assert j == words[0] + " " + r;
      assert j[0] == words[0][0];
      assert j[|j| - 1] == r[|r| - 1];
    }
  }

  /** The text a format's token stands for. */
  function Field(token: ChineseToken, entry: ChineseStruct, translation: string): string {
    match token
    case Pinyin => entry.pinyin
    case Ideogram => entry.ideogram
    case Translation => translation
  }

  /** The fields a format asks for, in its order. */
  function Fields(entry: ChineseStruct, translation: string, format: seq<ChineseToken>): seq<string> {
    seq(|format|, i requires 0 <= i < |format| => Field(format[i], entry, translation))
  }

  /** The text `restructure`'s loop accumulates: a space and then the field,
      for each token of the format in turn. */
  function Accumulated(entry: ChineseStruct, translation: string, format: seq<ChineseToken>): string {
    if format == [] then []
    else
      Accumulated(entry, translation, format[..|format| - 1])
        + " " + Field(format[|format| - 1], entry, translation)
  }

  /** `restructure`: refuses an invalid format, otherwise strips the
      accumulated text and wraps it in parentheses. */
  function Restructured(entry: ChineseStruct, translation: string, format: seq<ChineseToken>): Result<string> {
    if !IsValidFormat(format) then Err(InvalidFormat(format))
    else Ok("(" + Strip(Accumulated(entry, translation, format)) + ")")
  }

  /** `restructure`, with the source's loop over the format. */
  method Restructure(entry: ChineseStruct, translation: string, format: seq<ChineseToken>)
    returns (r: Result<string>)
    ensures r == Restructured(entry, translation, format)
  {
    if !IsValidFormat(format) {
      return Err(InvalidFormat(format));
    }
    var newLine: string := "";
    for k := 0 to |format|
      invariant newLine == Accumulated(entry, translation, format[..k])
    {
      assert format[..k + 1][..k] == format[..k];
      match format[k]
      case Pinyin => newLine := newLine + " " + entry.pinyin;
      case Ideogram => newLine := newLine + " " + entry.ideogram;
      case Translation => newLine := newLine + " " + translation;
    }
    assert format[..|format|] == format;
    newLine := Strip(newLine);
    r := Ok("(" + newLine + ")");
  }

  /** `restructure` raises exactly for an invalid format, and otherwise
      returns one parenthesised group. */
  lemma RestructureShape(entry: ChineseStruct, translation: string, format: seq<ChineseToken>)
    ensures var r := Restructured(entry, translation, format);
      && (r.Err? <==> !IsValidFormat(format))
      && (r.Err? ==> r.error == InvalidFormat(format))
      && (r.Ok? ==> |r.value| >= 2 && r.value[0] == '(' && r.value[|r.value| - 1] == ')')
  {
  }

  /** The accumulated text is a space followed by the requested fields
      joined by single spaces. */
  lemma {:induction false} AccumulatedJoin(entry: ChineseStruct, translation: string, format: seq<ChineseToken>)
    requires format != []
    ensures Accumulated(entry, translation, format) == " " + Join(" ", Fields(entry, translation, format))
  {
    var n := |format|;
    var init := format[..n - 1];
    var fields := Fields(entry, translation, format);
    assert fields == Fields(entry, translation, init) + [Field(format[n - 1], entry, translation)];
    JoinAppend(" ", Fields(entry, translation, init), Field(format[n - 1], entry, translation));
    if init != [] {
      AccumulatedJoin(entry, translation, init);
    }
  }

  /** The two headword fields a valid format starts with, joined by a space,
      make a non-empty trimmed string. */
  lemma HeadFieldsTrimmed(entry: ChineseStruct, translation: string, format: seq<ChineseToken>)
    requires IsValidFormat(format) && WellFormedEntry(entry)
    ensures var head := Fields(entry, translation, format[..2]);
      && head == [Field(format[0], entry, translation), Field(format[1], entry, translation)]
      && var text := Join(" ", head); text != [] && Trimmed(text)
  {
    ValidFormatLayout(format);
    var head := Fields(entry, translation, format[..2]);
    assert head == [Field(format[0], entry, translation), Field(format[1], entry, translation)];
    JoinTrimmed(head);
  }

  /** For a valid format, a well-formed headword and a trimmed translation,
      `restructure` returns the requested fields in format order joined by
      single spaces; an empty translation is left out with its space. */
  lemma RestructureFields(entry: ChineseStruct, translation: string, format: seq<ChineseToken>)
    requires IsValidFormat(format) && WellFormedEntry(entry) && Trimmed(translation)
    ensures Restructured(entry, translation, format)
      == Ok("(" + Join(" ", Fields(entry, translation, if translation == [] then format[..2] else format)) + ")")
  {
    ValidFormatLayout(format);
    AccumulatedJoin(entry, translation, format);
    HeadFieldsTrimmed(entry, translation, format);
    var shown := if translation == [] then format[..2] else format;
    var acc := Accumulated(entry, translation, format);
    assert Strip(acc) == Join(" ", Fields(entry, translation, shown)) by {
      if |format| == 2 {
        StripShort(entry, translation, format);
      } else if translation == [] {
        StripFullUntranslated(entry, format);
      } else {
        StripFullTranslated(entry, translation, format);
      }
    }
  }

  /** The two-field layouts: the accumulated text is one space and the headword. */
  lemma StripShort(entry: ChineseStruct, translation: string, format: seq<ChineseToken>)
    requires IsValidFormat(format) && WellFormedEntry(entry) && |format| == 2
    ensures Strip(Accumulated(entry, translation, format)) == Join(" ", Fields(entry, translation, format[..2]))
  {
    AccumulatedJoin(entry, translation, format);
    HeadFieldsTrimmed(entry, translation, format);
    var headText := Join(" ", Fields(entry, translation, format[..2]));
    assert format[..2] == format;
    StripPadded(" ", headText, "");
    assert Accumulated(entry, translation, format) == " " + headText + "";
  }

  /** The full layouts with an empty translation: the trailing space it
      leaves is stripped. */
  lemma StripFullUntranslated(entry: ChineseStruct, format: seq<ChineseToken>)
    requires IsValidFormat(format) && WellFormedEntry(entry) && |format| == 3
    ensures Strip(Accumulated(entry, [], format)) == Join(" ", Fields(entry, [], format[..2]))
  {
    ValidFormatLayout(format);
    AccumulatedJoin(entry, [], format);
    HeadFieldsTrimmed(entry, [], format);
    var head := Fields(entry, [], format[..2]);
    var headText := Join(" ", head);
    assert Fields(entry, [], format) == head + [[]];
    JoinAppend(" ", head, []);
    assert Accumulated(entry, [], format) == " " + headText + " ";
    StripPadded(" ", headText, " ");
  }

  /** The full layouts with a translation: all three fields, space-separated. */
  lemma StripFullTranslated(entry: ChineseStruct, translation: string, format: seq<ChineseToken>)
    requires IsValidFormat(format) && WellFormedEntry(entry) && |format| == 3
    requires translation != [] && Trimmed(translation)
    ensures Strip(Accumulated(entry, translation, format)) == Join(" ", Fields(entry, translation, format))
  {
    ValidFormatLayout(format);
    AccumulatedJoin(entry, translation, format);
    HeadFieldsTrimmed(entry, translation, format);
    var head := Fields(entry, translation, format[..2]);
    var headText := Join(" ", head);
    var fields := Fields(entry, translation, format);
    assert fields == head + [translation];
    JoinAppend(" ", head, translation);
    var all := Join(" ", fields);
    assert all == headText + " " + translation;
    assert all[0] == headText[0] && all[|all| - 1] == translation[|translation| - 1];
    StripPadded(" ", all, "");
    assert Accumulated(entry, translation, format) == " " + all + "";
  }

  /** The fields `split` returns hold no whitespace but the plain space. */
  lemma SplitAvoids(group: string, cs: set<char>)
    requires Split(group).Ok?
    requires ' ' !in cs && cs <= Whitespace
    ensures var (entry, translation) := Split(group).value;
      Avoids(entry.pinyin, cs) && Avoids(entry.ideogram, cs) && Avoids(translation, cs)
  {
    SplitFields(group);
    var words := Words(group);
    WordsShape(group);
    if |words| > 2 {
      JoinAvoids(" ", words[2..], cs);
    }
  }

  /** Everything `restructure` writes is a parenthesis, a space or a
      character of one of the fields. */
  lemma RestructuredAvoids(entry: ChineseStruct, translation: string, format: seq<ChineseToken>, cs: set<char>)
    requires '(' !in cs && ')' !in cs && ' ' !in cs
    requires Avoids(entry.pinyin, cs) && Avoids(entry.ideogram, cs) && Avoids(translation, cs)
    requires IsValidFormat(format)
    ensures Avoids(Restructured(entry, translation, format).value, cs)
  {
    var acc := Accumulated(entry, translation, format);
    AccumulatedAvoids(entry, translation, format, cs);
    StripAvoids(acc, cs);
    var inner := Strip(acc);
    assert Restructured(entry, translation, format).value == "(" + inner + ")";
  }

  lemma {:induction false} AccumulatedAvoids(entry: ChineseStruct, translation: string, format: seq<ChineseToken>, cs: set<char>)
    requires ' ' !in cs
    requires Avoids(entry.pinyin, cs) && Avoids(entry.ideogram, cs) && Avoids(translation, cs)
    ensures Avoids(Accumulated(entry, translation, format), cs)
    decreases |format|
  {
    if format != [] {
      var front := format[..|format| - 1];
      AccumulatedAvoids(entry, translation, front, cs);
      var f := Field(format[|format| - 1], entry, translation);
      assert Avoids(f, cs);
      assert Accumulated(entry, translation, format) == Accumulated(entry, translation, front) + " " + f;
    }
  }

  /** Restructuring what `split` returns with the pinyin-first full layout
      gives the normalised group back inside one pair of parentheses. */
  lemma SplitRestructureRoundTrip(group: string)
    requires |Words(group)| >= 2
    ensures Split(group).Ok?
    ensures var (entry, translation) := Split(group).value;
      Restructured(entry, translation, FullPinyinFirst) == Ok("(" + Normalize(group) + ")")
  {
    SplitFailsIff(group);
    SplitFields(group);
    var (entry, translation) := Split(group).value;
    RestructureFields(entry, translation, FullPinyinFirst);
    var fields := Fields(entry, translation, if translation == [] then FullPinyinFirst[..2] else FullPinyinFirst);
    assert fields == [entry.pinyin, entry.ideogram] + (if translation == [] then [] else [translation]);
  }
}
