/**
 * The whole-file pass of the dictionary generator: every non-blank line is
 * cut into its `(...)` groups, each group is split and restructured into the
 * requested layout, later copies of a generated line are removed, and every
 * line is written out ending in a single '\n'.
 */
module Generate {
  import opened Builtins
  import opened ChineseTokens
  import opened Groups
  import opened LineDedup

  /** Python's `s[:-1]`: everything but the last character ("" stays ""). */
  function DropLast(s: string): (r: string)
    ensures s == [] ==> r == []
    ensures s != [] ==> r + [s[|s| - 1]] == s
  {
    if s == [] then [] else s[..|s| - 1]
  }

  /** `line.split(')(')`, then every '(' removed from the first piece and
      every ')' from the last one (the same piece when there is only one). */
  function Pieces(line: string): seq<string> {
    var parts := SplitOn(line, ")(");
    var front := parts[0 := Without(parts[0], '(')];
    front[|front| - 1 := Without(front[|front| - 1], ')')]
  }

  /** One group of a line: `split`, then `restructure`; the first exception wins. */
  function Group(piece: string, format: seq<ChineseToken>): Result<string> {
    match Split(piece)
    case Err(e) => Err(e)
    case Ok((entry, translation)) => Restructured(entry, translation, format)
  }

  /** The source's `for` loops that build a list, one element per input,
      and give up at the first exception: the results in order, or the
      exception of the first input that fails. */
  function Collect<T>(xs: seq<string>, f: string -> Result<T>): Result<seq<T>>
    decreases |xs|
  {
    if xs == [] then Ok([])
    else
      match Collect(xs[..|xs| - 1], f)
      case Err(e) => Err(e)
      case Ok(ys) =>
        match f(xs[|xs| - 1])
        case Err(e) => Err(e)
        case Ok(y) => Ok(ys + [y])
  }

  /** When no input fails, there is one result per input, each `f` of it. */
  lemma {:induction false} CollectEach<T>(xs: seq<string>, f: string -> Result<T>)
    requires Collect(xs, f).Ok?
    ensures var ys := Collect(xs, f).value;
      && |ys| == |xs|
      && forall k :: 0 <= k < |xs| ==> f(xs[k]) == Ok(ys[k])
    decreases |xs|
  {
    if xs != [] {
      var front := xs[..|xs| - 1];
      CollectEach(front, f);
      var ys := Collect(front, f).value;
      var y := f(xs[|xs| - 1]).value;
      assert Collect(xs, f).value == ys + [y];
      forall k | 0 <= k < |xs| ensures f(xs[k]) == Ok((ys + [y])[k]) {
        if k < |front| {
          assert xs[k] == front[k];
        }
      }
    }
  }

  /** Once a prefix of the inputs fails, the whole loop fails the same way. */
  lemma {:induction false} CollectPrefixError<T>(xs: seq<string>, j: nat, f: string -> Result<T>)
    requires j <= |xs| && Collect(xs[..j], f).Err?
    ensures Collect(xs, f) == Collect(xs[..j], f)
    decreases |xs|
  {
    if j < |xs| {
      var front := xs[..|xs| - 1];
      assert front[..j] == xs[..j];
      CollectPrefixError(front, j, f);
    } else {
      assert xs[..j] == xs;
    }
  }

  /** `Group` for a fixed format, as the loop over the pieces applies it. */
  function GroupIn(format: seq<ChineseToken>): string -> Result<string> {
    piece => Group(piece, format)
  }

  /** The body of the loop over the input lines: a blank line is copied as
      it is; any other line becomes its restructured groups written side by
      side, without the closing parenthesis of the last one when it has one. */
  function TransformLine(line: string, format: seq<ChineseToken>): Result<string> {
    if IsBlank(line) then Ok(line)
    else
      match Collect(Pieces(line), GroupIn(format))
      case Err(e) => Err(e)
      case Ok(groups) =>
        CollectEach(Pieces(line), GroupIn(format));
        GroupClosed(Pieces(line)[|groups| - 1], format);
        Ok(JoinGroups(groups))
  }

  /** The groups written side by side, less the closing parenthesis of the
      last group when it ends in one; the source indexes the last character
      of the last group, so both must exist. */
  function JoinGroups(groups: seq<string>): string
    requires groups != [] && groups[|groups| - 1] != []
  {
    var last := groups[|groups| - 1];
    var joined := Join("", groups);
    if last[|last| - 1] == ')' then DropLast(joined) else joined
  }

  /** `TransformLine` for a fixed format, as the loop over the lines applies it. */
  function LineIn(format: seq<ChineseToken>): string -> Result<string> {
    line => TransformLine(line, format)
  }

  /** `re.sub('\n+', '\n', line + '\n')`: the line as it is written out. */
  function FinalLine(line: string): string {
    CollapseRuns(line + "\n", {'\n'}, '\n')
  }

  /** The two list comprehensions applied before writing. */
  function Finalize(lines: seq<string>): seq<string> {
    seq(|lines|, i requires 0 <= i < |lines| => FinalLine(lines[i]))
  }

  /** `generate_html_dictionary` on the text of the input file: the lines it
      writes to the output file, or the exception it raises. */
  function Generate(inPath: string, outPath: string, text: string, format: seq<ChineseToken>): Result<seq<string>> {
    if inPath == outPath then Err(SamePath)
    else
      match Collect(ReadLines(text), LineIn(format))
      case Err(e) => Err(e)
      case Ok(outLines) => Ok(Finalize(Dedup(outLines)))
  }

  /** `generate_html_dictionary`, with the source's loops over the lines
      and the in-place removal of duplicates. */
  method GenerateHtmlDictionary(inPath: string, outPath: string, text: string, format: seq<ChineseToken>)
    returns (r: Result<seq<string>>)
    ensures r == Generate(inPath, outPath, text, format)
  {
    if inPath == outPath {
      return Err(SamePath);
    }
    var lines := ReadLines(text);
    var outLines: seq<string> := [];
    for k := 0 to |lines|
      invariant Collect(lines[..k], LineIn(format)) == Ok(outLines)
    {
      assert lines[..k + 1][..k] == lines[..k];
      var outLine := ProcessLine(lines[k], format);
      if outLine.Err? {
        CollectPrefixError(lines, k + 1, LineIn(format));
        return Err(outLine.error);
      }
      outLines := outLines + [outLine.value];
    }
    assert lines[..|lines|] == lines;
    var deduped := RemoveDuplicates(outLines);
    r := Ok(Finalize(deduped));
  }

  /** The body of the loop over the lines. */
  method ProcessLine(line: string, format: seq<ChineseToken>) returns (r: Result<string>)
    ensures r == TransformLine(line, format)
  {
    StripEmptyIffBlank(line);
    if Strip(line) == [] {
      return Ok(line);
    }
    var parentheses := SplitOn(line, ")(");
    parentheses := parentheses[0 := Without(parentheses[0], '(')];
    parentheses := parentheses[|parentheses| - 1 := Without(parentheses[|parentheses| - 1], ')')];
    assert parentheses == Pieces(line);
    var outParentheses := RestructureGroups(parentheses, format);
    if outParentheses.Err? {
      return Err(outParentheses.error);
    }
    var groups := outParentheses.value;
    CollectEach(parentheses, GroupIn(format));
    GroupClosed(parentheses[|parentheses| - 1], format);
    r := Ok(JoinGroups(groups));
  }

  /** The source's loop over the groups of a line. */
  method RestructureGroups(parentheses: seq<string>, format: seq<ChineseToken>) returns (r: Result<seq<string>>)
    ensures r == Collect(parentheses, GroupIn(format))
  {
    var outParentheses: seq<string> := [];
    for j := 0 to |parentheses|
      invariant Collect(parentheses[..j], GroupIn(format)) == Ok(outParentheses)
    {
      assert parentheses[..j + 1][..j] == parentheses[..j];
      var split := Split(parentheses[j]);
      if split.Err? {
        CollectPrefixError(parentheses, j + 1, GroupIn(format));
        return Err(split.error);
      }
      var (entry, translation) := split.value;
      var group := Restructure(entry, translation, format);
      if group.Err? {
        CollectPrefixError(parentheses, j + 1, GroupIn(format));
        return Err(group.error);
      }
      outParentheses := outParentheses + [group.value];
    }
    assert parentheses[..|parentheses|] == parentheses;
    r := Ok(outParentheses);
  }

  /** Every group `restructure` writes is wrapped in one pair of parentheses. */
  lemma GroupClosed(piece: string, format: seq<ChineseToken>)
    ensures Group(piece, format).Ok? ==> Parenthesised(Group(piece, format).value)
  {
    if Split(piece).Ok? {
      var (entry, translation) := Split(piece).value;
      RestructureShape(entry, translation, format);
    }
  }

  /** The loop fails exactly when some input fails, and then with the
      exception of the first input that fails. */
  lemma {:induction false} CollectFails<T>(xs: seq<string>, f: string -> Result<T>)
    ensures Collect(xs, f).Err? <==> exists k :: 0 <= k < |xs| && f(xs[k]).Err?
    ensures Collect(xs, f).Err? ==>
      exists k :: 0 <= k < |xs| && f(xs[k]).Err? && f(xs[k]).error == Collect(xs, f).error
        && forall j :: 0 <= j < k ==> f(xs[j]).Ok?
    decreases |xs|
  {
    if xs != [] {
      var front := xs[..|xs| - 1];
      CollectFails(front, f);
      assert forall j :: 0 <= j < |front| ==> front[j] == xs[j];
      if Collect(front, f).Ok? {
        CollectEach(front, f);
      }
    }
  }

  /** The pieces of a line: never none (so the source's check for an empty
      split never fires), the first without '(' and the last without ')',
      the ones between as `split` cut them; the cut pieces joined back with
      ")(" spell the line. */
  lemma PiecesShape(line: string)
    ensures var parts := SplitOn(line, ")(");
      var pieces := Pieces(line);
      && |pieces| == |parts| >= 1
      && '(' !in pieces[0]
      && ')' !in pieces[|pieces| - 1]
      && (forall k :: 0 < k < |pieces| - 1 ==> pieces[k] == parts[k])
      && Join(")(", parts) == line
      && (forall k :: 0 <= k < |pieces| ==> NoOccurrence(pieces[k], ")("))
  {
    JoinSplitOn(line, ")(");
    SplitOnPiecesLackSeparator(line, ")(");
    var parts := SplitOn(line, ")(");
    var pieces := Pieces(line);
    var first := Without(parts[0], '(');
    var front := parts[0 := first];
    if |parts| == 1 {
      var only := Without(first, ')');
      WithoutCounts(first, ')');
      assert multiset(only)['('] == 0;
    }
    NoOccurrenceMissing(pieces[0], ")(", 1);
    NoOccurrenceMissing(pieces[|pieces| - 1], ")(", 0);
  }

  /** A group fails exactly when it holds fewer than two words (the `split`
      exception) or the format is not one of the four layouts (the
      `restructure` exception, raised only for a group that splits). */
  lemma GroupFailsIff(piece: string, format: seq<ChineseToken>)
    ensures Group(piece, format).Err? <==> |Words(piece)| < 2 || !IsValidFormat(format)
    ensures |Words(piece)| < 2 ==> Group(piece, format) == Err(Split(piece).error)
    ensures |Words(piece)| >= 2 && !IsValidFormat(format) ==> Group(piece, format) == Err(InvalidFormat(format))
    ensures Group(piece, format).Err? ==> !Group(piece, format).error.SamePath?
  {
    SplitFailsIff(piece);
    if Split(piece).Ok? {
      var (entry, translation) := Split(piece).value;
      RestructureShape(entry, translation, format);
    }
  }

  /** With the layout of the source dictionary, a group comes back as its
      normalised text in parentheses. */
  lemma GroupFullPinyinFirst(piece: string)
    requires |Words(piece)| >= 2
    ensures Group(piece, FullPinyinFirst) == Ok("(" + Normalize(piece) + ")")
  {
    SplitRestructureRoundTrip(piece);
  }

  /** The whitespace characters other than the plain space. */
  const OtherWhitespace: set<char> := Whitespace - {' '}

  /** A restructured group holds no whitespace but the plain space. */
  lemma GroupSpaces(piece: string, format: seq<ChineseToken>)
    requires Group(piece, format).Ok?
    ensures Avoids(Group(piece, format).value, OtherWhitespace)
  {
    var cs := OtherWhitespace;
    assert ' ' !in cs && cs <= Whitespace && '(' !in cs && ')' !in cs;
    var (entry, translation) := Split(piece).value;
    SplitAvoids(piece, cs);
    RestructureShape(entry, translation, format);
    RestructuredAvoids(entry, translation, format, cs);
  }

  /** A line fails exactly when it is not blank and either the format is
      invalid or one of its pieces holds fewer than two words; the exception
      is never the one about paths. */
  lemma TransformLineFails(line: string, format: seq<ChineseToken>)
    ensures TransformLine(line, format).Err? <==>
      && !IsBlank(line)
      && (!IsValidFormat(format) || exists k :: 0 <= k < |Pieces(line)| && |Words(Pieces(line)[k])| < 2)
    ensures TransformLine(line, format).Err? ==> !TransformLine(line, format).error.SamePath?
  {
    if !IsBlank(line) {
      var pieces := Pieces(line);
      PiecesShape(line);
      CollectFails(pieces, GroupIn(format));
      forall k | 0 <= k < |pieces| {
        GroupFailsIff(pieces[k], format);
      }
    }
  }

  /** The `else` branch of the check on the last group is never taken: a
      non-blank line always loses exactly the closing ')' of its last group. */
  lemma TransformLineDropsClosing(line: string, format: seq<ChineseToken>)
    requires !IsBlank(line) && TransformLine(line, format).Ok?
    ensures var groups := Collect(Pieces(line), GroupIn(format)).value;
      TransformLine(line, format).value + ")" == Join("", groups)
  {
    var pieces := Pieces(line);
    var groups := Collect(pieces, GroupIn(format)).value;
    CollectEach(pieces, GroupIn(format));
    PiecesShape(line);
    forall k | 0 <= k < |groups| ensures Parenthesised(groups[k]) {
      GroupClosed(pieces[k], format);
    }
    JoinGroupsShape(groups);
  }

  /** `s` is wrapped in a pair of parentheses. */
  predicate Parenthesised(s: string) {
    |s| >= 2 && s[0] == '(' && s[|s| - 1] == ')'
  }

  /** Groups that are all parenthesised are written side by side without
      the last ')', so the line starts with '(' and nothing else is lost. */
  lemma JoinGroupsShape(groups: seq<string>)
    requires groups != [] && Parenthesised(groups[0]) && Parenthesised(groups[|groups| - 1])
    ensures groups[|groups| - 1] != []
    ensures JoinGroups(groups) + ")" == Join("", groups)
    ensures JoinGroups(groups) != [] && JoinGroups(groups)[0] == '('
  {
    var first := groups[0];
    var last := groups[|groups| - 1];
    JoinEnds("", groups);
    var joined := Join("", groups);
    assert joined[0] == first[0];
    assert joined[|joined| - 1] == last[|last| - 1];
    assert JoinGroups(groups) == joined[..|joined| - 1];
    assert joined[..|joined| - 1] + ")" == joined;
  }

  /** With the layout of the source dictionary, every group of a line is
      written back as its normalised text in parentheses, all side by side,
      less the final ')'. */
  lemma TransformLineFullPinyinFirst(line: string)
    requires !IsBlank(line)
    requires forall k :: 0 <= k < |Pieces(line)| ==> |Words(Pieces(line)[k])| >= 2
    ensures TransformLine(line, FullPinyinFirst).Ok?
    ensures var pieces := Pieces(line);
      TransformLine(line, FullPinyinFirst).value + ")"
        == Join("", seq(|pieces|, k requires 0 <= k < |pieces| => "(" + Normalize(pieces[k]) + ")"))
  {
    TransformLineFails(line, FullPinyinFirst);
    CollectFullPinyinFirst(Pieces(line));
    TransformLineDropsClosing(line, FullPinyinFirst);
  }

  /** With the layout of the source dictionary, pieces of at least two
      words each become their normalised texts in parentheses. */
  lemma CollectFullPinyinFirst(pieces: seq<string>)
    requires forall k :: 0 <= k < |pieces| ==> |Words(pieces[k])| >= 2
    ensures Collect(pieces, GroupIn(FullPinyinFirst))
      == Ok(seq(|pieces|, k requires 0 <= k < |pieces| => "(" + Normalize(pieces[k]) + ")"))
  {
    var f := GroupIn(FullPinyinFirst);
    forall k | 0 <= k < |pieces| ensures f(pieces[k]) == Ok("(" + Normalize(pieces[k]) + ")") {
      GroupFullPinyinFirst(pieces[k]);
    }
    CollectFails(pieces, f);
    CollectEach(pieces, f);
    var groups := Collect(pieces, f).value;
    assert groups == seq(|pieces|, k requires 0 <= k < |pieces| => "(" + Normalize(pieces[k]) + ")");
  }

  /** Groups that are each parenthesised and free of the characters `cs`
      give a line that starts with '(' and is free of them too. */
  lemma JoinGroupsAvoids(groups: seq<string>, cs: set<char>)
    requires groups != []
    requires forall k :: 0 <= k < |groups| ==> Parenthesised(groups[k]) && Avoids(groups[k], cs)
    ensures groups[|groups| - 1] != []
    ensures var v := JoinGroups(groups); v != [] && v[0] == '(' && Avoids(v, cs)
  {
    JoinGroupsShape(groups);
    JoinAvoids("", groups, cs);
    var v := JoinGroups(groups);
    var joined := Join("", groups);
    assert forall i :: 0 <= i < |v| ==> v[i] == joined[i];
  }

  /** A blank line is copied as it is; any other line comes out starting
      with '(' and holding no whitespace but the plain space, so on a
      single line and never blank. */
  lemma TransformLineSingleLine(line: string, format: seq<ChineseToken>)
    requires TransformLine(line, format).Ok?
    ensures var v := TransformLine(line, format).value;
      && (IsBlank(line) ==> v == line)
      && (!IsBlank(line) ==> v != [] && v[0] == '(' && Avoids(v, OtherWhitespace) && !IsBlank(v))
  {
    if !IsBlank(line) {
      var pieces := Pieces(line);
      var groups := Collect(pieces, GroupIn(format)).value;
      CollectEach(pieces, GroupIn(format));
      forall k | 0 <= k < |groups|
        ensures Parenthesised(groups[k]) && Avoids(groups[k], OtherWhitespace)
      {
        GroupClosed(pieces[k], format);
        GroupSpaces(pieces[k], format);
      }
      JoinGroupsAvoids(groups, OtherWhitespace);
      assert TransformLine(line, format).value == JoinGroups(groups);
    }
  }

  /** A line as written: it ends in '\n' and never holds two '\n' in a row;
      a line without '\n' just gets one; a blank line stays blank and a
      non-blank line without '\n' stays non-blank. */
  lemma FinalLineShape(line: string)
    ensures var r := FinalLine(line);
      && r != [] && r[|r| - 1] == '\n'
      && (forall i :: 0 <= i < |r| - 1 ==> !(r[i] == '\n' && r[i + 1] == '\n'))
      && ('\n' !in line ==> r == line + "\n")
      && (IsBlank(line) ==> IsBlank(r))
      && ('\n' !in line && !IsBlank(line) ==> !IsBlank(r))
  {
    var s := line + "\n";
    var r := FinalLine(line);
    CollapseRunsShape(s, {'\n'}, '\n');
    assert s[|s| - 1] == '\n';
    if '\n' !in line {
      assert forall i :: 0 <= i < |s| - 1 ==> s[i] == line[i];
      CollapseRunsIdentity(s, {'\n'}, '\n');
      BlankIffAllWhitespace(line);
      BlankIffAllWhitespace(s);
    }
    if IsBlank(line) {
      BlankIffAllWhitespace(line);
      BlankIffAllWhitespace(r);
      forall i | 0 <= i < |r| ensures r[i] in Whitespace {
        if r[i] != '\n' {
          assert r[i] in s;
        }
      }
    }
  }

  /** A line of the output file: one '\n', as its last character. */
  predicate OneLine(r: string) {
    r != [] && r[|r| - 1] == '\n' && '\n' !in r[..|r| - 1]
  }

  /** A line whose only '\n' can be its last character is written with
      exactly one '\n' at its end: the one it has, or one added. */
  lemma FinalLineSingle(line: string)
    requires '\n' !in DropLast(line)
    ensures FinalLine(line) == (if line != [] && line[|line| - 1] == '\n' then line else line + "\n")
    ensures OneLine(FinalLine(line))
  {
    var p := DropLast(line);
    if line != [] && line[|line| - 1] == '\n' {
      assert line + "\n" == p + ['\n', '\n'];
      CollapseRunsDoubled(p, {'\n'}, '\n');
      assert line[..|line| - 1] == p;
    } else {
      if line != [] {
        assert line == p + [line[|line| - 1]];
      }
      assert '\n' !in line;
      FinalLineShape(line);
      assert (line + "\n")[..|line|] == line;
    }
  }

  /** Writing out lines that are distinct apart from blank ones, and whose
      non-blank ones hold no '\n', keeps them distinct. */
  lemma FinalizeDistinct(d: seq<string>)
    requires DistinctNonBlank(d)
    requires forall k :: 0 <= k < |d| ==> IsBlank(d[k]) || '\n' !in d[k]
    ensures DistinctNonBlank(Finalize(d))
  {
    var out := Finalize(d);
    forall i, j | 0 <= i < j < |out| && !IsBlank(out[i]) ensures out[i] != out[j] {
      FinalLineShape(d[i]);
      FinalLineShape(d[j]);
      assert !IsBlank(d[i]) && out[i] == d[i] + "\n";
      if !IsBlank(d[j]) {
        assert out[j] == d[j] + "\n";
        assert out[i][..|d[i]|] == d[i] && out[j][..|d[j]|] == d[j];
      }
    }
  }

  /** The output for the lines `t` the loop produced: no more lines than
      it had, each a single line ending in '\n', no non-blank line twice,
      every produced line present, and nothing that was not produced. */
  lemma FinalizeFirstOccurrences(t: seq<string>)
    requires forall k :: 0 <= k < |t| ==> '\n' !in DropLast(t[k]) && (IsBlank(t[k]) || '\n' !in t[k])
    ensures var out := Finalize(FirstOccurrences(t));
      && |out| <= |t|
      && (forall i :: 0 <= i < |out| ==> OneLine(out[i]))
      && DistinctNonBlank(out)
      && (forall k :: 0 <= k < |t| ==> FinalLine(t[k]) in out)
      && (forall i :: 0 <= i < |out| ==> exists k :: 0 <= k < |t| && out[i] == FinalLine(t[k]))
  {
    var d := FirstOccurrences(t);
    var out := Finalize(d);
    FirstOccurrencesSubsequence(t);
    FirstOccurrencesSameLines(t);
    FirstOccurrencesDistinct(t);
    forall i | 0 <= i < |d|
      ensures '\n' !in DropLast(d[i]) && (IsBlank(d[i]) || '\n' !in d[i])
      ensures exists k :: 0 <= k < |t| && d[i] == t[k]
    {
      assert d[i] in t;
    }
    forall i | 0 <= i < |out| ensures OneLine(out[i]) {
      FinalLineSingle(d[i]);
    }
    FinalizeDistinct(d);
    forall k | 0 <= k < |t| ensures FinalLine(t[k]) in out {
      assert t[k] in d;
      var i :| 0 <= i < |d| && d[i] == t[k];
      assert out[i] == FinalLine(t[k]);
    }
  }

  /** Generation fails exactly when the output path is the input path, or
      some line of the input cannot be restructured; the same-path error is
      reported exactly in the first case. */
  lemma GenerateFails(inPath: string, outPath: string, text: string, format: seq<ChineseToken>)
    ensures Generate(inPath, outPath, text, format).Err? <==>
      || inPath == outPath
      || exists k :: 0 <= k < |ReadLines(text)| && TransformLine(ReadLines(text)[k], format).Err?
    ensures Generate(inPath, outPath, text, format) == Err(SamePath) <==> inPath == outPath
  {
    var lines := ReadLines(text);
    CollectFails(lines, LineIn(format));
    if inPath != outPath && Collect(lines, LineIn(format)).Err? {
      var k :| 0 <= k < |lines| && TransformLine(lines[k], format).Err?
        && TransformLine(lines[k], format).error == Collect(lines, LineIn(format)).error;
      TransformLineFails(lines[k], format);
    }
  }

  /** A successful generation: the paths differ, every line of the input
      was restructured, and the file written holds the restructured lines
      in their first occurrences, each on a single line ending in '\n', no
      non-blank line twice, every restructured line present and no other. */
  lemma GenerateShape(inPath: string, outPath: string, text: string, format: seq<ChineseToken>)
    requires Generate(inPath, outPath, text, format).Ok?
    ensures inPath != outPath
    ensures var lines := ReadLines(text);
      var t := Collect(lines, LineIn(format)).value;
      var out := Generate(inPath, outPath, text, format).value;
      && |t| == |lines|
      && (forall k :: 0 <= k < |lines| ==> TransformLine(lines[k], format) == Ok(t[k]))
      && out == Finalize(FirstOccurrences(t))
      && |out| <= |lines|
      && (forall i :: 0 <= i < |out| ==> OneLine(out[i]))
      && DistinctNonBlank(out)
      && (forall k :: 0 <= k < |t| ==> FinalLine(t[k]) in out)
      && (forall i :: 0 <= i < |out| ==> exists k :: 0 <= k < |t| && out[i] == FinalLine(t[k]))
  {
    var lines := ReadLines(text);
    var t := Collect(lines, LineIn(format)).value;
    CollectEach(lines, LineIn(format));
    DedupIsFirstOccurrences(t);
    ReadLinesShape(text);
    assert '\n' in OtherWhitespace;
    forall k | 0 <= k < |t| ensures '\n' !in DropLast(t[k]) && (IsBlank(t[k]) || '\n' !in t[k]) {
      TransformLineSingleLine(lines[k], format);
      if IsBlank(lines[k]) {
        assert t[k] == lines[k];
      } else {
        assert forall i :: 0 <= i < |t[k]| ==> t[k][i] != '\n';
      }
    }
    FinalizeFirstOccurrences(t);
  }
}
