/**
 * The Python built-ins the dictionary generator is written with: `str.strip`,
 * `re.sub(pattern + '+', rep, s)`, `str.split(sep)`, `str.join`,
 * `str.replace(c, '')`, `list.index` and the `readlines` of a text file.
 * Strings are sequences of Unicode scalar values, as Python's `str` is.
 */
module Builtins {

  /** The characters for which Python's `str.isspace()` holds; `str.strip()`
      with no argument and the regex class `\s` on a `str` use this same set. */
  const Whitespace: set<char> := {
    '\t', '\n', '\U{B}', '\U{C}', '\r', '\U{1C}', '\U{1D}', '\U{1E}', '\U{1F}', ' ',
    '\U{85}', '\U{A0}', '\U{1680}',
    '\U{2000}', '\U{2001}', '\U{2002}', '\U{2003}', '\U{2004}', '\U{2005}',
    '\U{2006}', '\U{2007}', '\U{2008}', '\U{2009}', '\U{200A}',
    '\U{2028}', '\U{2029}', '\U{202F}', '\U{205F}', '\U{3000}'
  }

  /** No character of `s` is whitespace. */
  predicate NoSpace(s: string) {
    forall i :: 0 <= i < |s| ==> s[i] !in Whitespace
  }

  /** `s` neither starts nor ends with whitespace (an empty `s` qualifies). */
  predicate Trimmed(s: string) {
    s == [] || (s[0] !in Whitespace && s[|s| - 1] !in Whitespace)
  }

  /** The leading run of characters of `cs` removed from `s`. */
  function DropLeading(s: string, cs: set<char>): (r: string)
    ensures |r| <= |s|
    ensures s != [] && s[0] in cs ==> |r| < |s|
  {
    if s != [] && s[0] in cs then DropLeading(s[1..], cs) else s
  }

  /** What `DropLeading` removes is a prefix made of `cs` only, and what it
      keeps does not start with a character of `cs`. */
  lemma {:induction false} DropLeadingShape(s: string, cs: set<char>)
    ensures var r := DropLeading(s, cs);
      && r == s[|s| - |r|..]
      && (r == [] || r[0] !in cs)
      && forall i :: 0 <= i < |s| - |r| ==> s[i] in cs
  {
    if s != [] && s[0] in cs {
      DropLeadingShape(s[1..], cs);
      var r := DropLeading(s, cs);
      assert s[1..][|s| - 1 - |r|..] == s[|s| - |r|..];
      assert forall i :: 1 <= i < |s| - |r| ==> s[i] == s[1..][i - 1];
    }
  }

  /** The trailing run of characters of `cs` removed from `s`. */
  function DropTrailing(s: string, cs: set<char>): (r: string)
    ensures |r| <= |s|
  {
    if s != [] && s[|s| - 1] in cs then DropTrailing(s[..|s| - 1], cs) else s
  }

  /** What `DropTrailing` removes is a suffix made of `cs` only, and what it
      keeps does not end with a character of `cs`. */
  lemma {:induction false} DropTrailingShape(s: string, cs: set<char>)
    ensures var r := DropTrailing(s, cs);
      && r == s[..|r|]
      && (r == [] || r[|r| - 1] !in cs)
      && forall i :: |r| <= i < |s| ==> s[i] in cs
  {
    if s != [] && s[|s| - 1] in cs {
      var front := s[..|s| - 1];
      DropTrailingShape(front, cs);
      var r := DropTrailing(s, cs);
      assert front[..|r|] == s[..|r|];
      assert forall i :: |r| <= i < |s| - 1 ==> s[i] == front[i];
    }
  }

  /** `s.strip()`. */
  function Strip(s: string): string {
    DropTrailing(DropLeading(s, Whitespace), Whitespace)
  }

  /** `strip()` leaves a trimmed string, no longer than the original, and an
      empty one exactly when the original is all whitespace. */
  lemma StripShape(s: string)
    ensures var r := Strip(s);
      && Trimmed(r)
      && |r| <= |s|
      && (r == [] <==> forall i :: 0 <= i < |s| ==> s[i] in Whitespace)
  {
    DropBothShape(s, Whitespace);
    DropBothEmpty(s, Whitespace);
  }

  /** Both runs of `ws` dropped: what is left neither starts nor ends with a
      character of `ws`, and is a slice of `s`. */
  lemma DropBothShape(s: string, ws: set<char>)
    ensures var l := DropLeading(s, ws);
      var r := DropTrailing(l, ws);
      && (r == [] || (r[0] !in ws && r[|r| - 1] !in ws))
      && r == s[|s| - |l|..|s| - |l| + |r|]
  {
    var l := DropLeading(s, ws);
    var r := DropTrailing(l, ws);
    DropLeadingShape(s, ws);
    DropTrailingShape(l, ws);
    var d := |s| - |l|;
    assert r == l[..|r|] && l == s[d..];
    if r != [] {
      assert r[0] == l[0];
    }
  }

  /** Both runs of `ws` dropped, nothing is left exactly when `s` is made
      of `ws` only. */
  lemma DropBothEmpty(s: string, ws: set<char>)
    ensures DropTrailing(DropLeading(s, ws), ws) == [] <==> forall i :: 0 <= i < |s| ==> s[i] in ws
  {
    var l := DropLeading(s, ws);
    var r := DropTrailing(l, ws);
    DropLeadingShape(s, ws);
    DropTrailingShape(l, ws);
    if r == [] {
      assert l == [];
    } else {
      assert r[0] == l[0] && l[0] == s[|s| - |l|];
    }
  }

  /** The line holds whitespace only (or nothing), character by character. */
  predicate IsBlank(line: string) {
    line == [] || (line[0] in Whitespace && IsBlank(line[1..]))
  }

  /** The test `line.strip() == ''` is exactly `IsBlank`. */
  lemma StripEmptyIffBlank(line: string)
    ensures Strip(line) == [] <==> IsBlank(line)
  {
    StripShape(line);
    BlankIffAllWhitespace(line);
  }

  lemma {:induction false} BlankIffAllWhitespace(line: string)
    ensures IsBlank(line) <==> forall i :: 0 <= i < |line| ==> line[i] in Whitespace
  {
    if line != [] {
      BlankIffAllWhitespace(line[1..]);
      assert forall i :: 1 <= i < |line| ==> line[i] == line[1..][i - 1];
    }
  }

  /** A leading run of `cs` in front of a string that does not start with a
      character of `cs` is dropped exactly. */
  lemma {:induction false} DropLeadingRun(run: string, rest: string, cs: set<char>)
    requires forall i :: 0 <= i < |run| ==> run[i] in cs
    requires rest == [] || rest[0] !in cs
    ensures DropLeading(run + rest, cs) == rest
  {
    if run == [] {
      assert run + rest == rest;
    } else {
      assert (run + rest)[0] == run[0];
      assert (run + rest)[1..] == run[1..] + rest;
      DropLeadingRun(run[1..], rest, cs);
    }
  }

  /** A trailing run of `cs` behind a string that does not end with a
      character of `cs` is dropped exactly. */
  lemma {:induction false} DropTrailingRun(rest: string, run: string, cs: set<char>)
    requires forall i :: 0 <= i < |run| ==> run[i] in cs
    requires rest == [] || rest[|rest| - 1] !in cs
    ensures DropTrailing(rest + run, cs) == rest
  {
    if run == [] {
      assert rest + run == rest;
    } else {
      var s := rest + run;
      assert s[|s| - 1] == run[|run| - 1];
      assert s[..|s| - 1] == rest + run[..|run| - 1];
      DropTrailingRun(rest, run[..|run| - 1], cs);
    }
  }

  /** `Strip` removes exactly the whitespace padding around a trimmed core. */
  lemma {:induction false} StripPadded(lead: string, core: string, trail: string)
    requires forall i :: 0 <= i < |lead| ==> lead[i] in Whitespace
    requires forall i :: 0 <= i < |trail| ==> trail[i] in Whitespace
    requires core != [] && Trimmed(core)
    ensures Strip(lead + core + trail) == core
  {
    assert (lead + core + trail)[..] == lead + (core + trail);
    DropLeadingRun(lead, core + trail, Whitespace);
    DropTrailingRun(core, trail, Whitespace);
  }

  /** `re.sub('[cs]+', rep, s)`: every maximal run of characters of `cs`
      becomes the single character `rep`. */
  function CollapseRuns(s: string, cs: set<char>, rep: char): string
    decreases |s|
  {
    if s == [] then []
    else if s[0] in cs then [rep] + CollapseRuns(DropLeading(s, cs), cs, rep)
    else [s[0]] + CollapseRuns(s[1..], cs, rep)
  }

  /** What `CollapseRuns` leaves: no two characters of `cs` side by side,
      `rep` as the only one of them, other characters taken from `s`, and a
      character of `cs` at either end exactly where `s` has one. */
  lemma {:induction false} CollapseRunsShape(s: string, cs: set<char>, rep: char)
    requires rep in cs
    ensures var r := CollapseRuns(s, cs, rep);
      && (r == [] <==> s == [])
      && (forall i :: 0 <= i < |r| ==> r[i] == rep || r[i] in s)
      && (forall i :: 0 <= i < |r| && r[i] in cs ==> r[i] == rep)
      && (forall i :: 0 <= i < |r| - 1 ==> !(r[i] in cs && r[i + 1] in cs))
      && (r != [] ==> (r[0] in cs <==> s[0] in cs))
      && (r != [] ==> (r[|r| - 1] in cs <==> s[|s| - 1] in cs))
    decreases |s|
  {
    if s == [] {
    } else if s[0] in cs {
      var rest := DropLeading(s, cs);
      DropLeadingShape(s, cs);
      CollapseRunsShape(rest, cs, rep);
      var tail := CollapseRuns(rest, cs, rep);
      assert CollapseRuns(s, cs, rep) == [rep] + tail;
      assert rest != [] ==> rest[|rest| - 1] == s[|s| - 1];
      assert forall c :: c in rest ==> c in s;
    } else {
      CollapseRunsShape(s[1..], cs, rep);
      var tail := CollapseRuns(s[1..], cs, rep);
      assert CollapseRuns(s, cs, rep) == [s[0]] + tail;
      assert forall c :: c in s[1..] ==> c in s;
    }
  }

  /** Collapsing the runs of a string that starts and ends outside `cs`
      gives a string that starts and ends outside `cs`, whose only character
      of `cs` is `rep`, and where `rep` is never doubled. */
  lemma CollapseRunsSeparated(s: string, cs: set<char>, rep: char)
    requires rep in cs
    requires s == [] || (s[0] !in cs && s[|s| - 1] !in cs)
    ensures var r := CollapseRuns(s, cs, rep);
      && (r == [] || (r[0] !in cs && r[|r| - 1] !in cs))
      && SingleSeparated(r, rep)
      && (forall i :: 0 <= i < |r| && r[i] in cs ==> r[i] == rep)
  {
    CollapseRunsShape(s, cs, rep);
  }

  /** A string that ends in two `rep` and holds no other character of `cs`
      loses just one of them. */
  lemma {:induction false} CollapseRunsDoubled(p: string, cs: set<char>, rep: char)
    requires rep in cs
    requires forall i :: 0 <= i < |p| ==> p[i] !in cs
    ensures CollapseRuns(p + [rep, rep], cs, rep) == p + [rep]
    decreases |p|
  {
    if p == [] {
      assert DropLeading([rep], cs) == [];
      assert DropLeading([rep, rep], cs) == [];
    } else {
      assert (p + [rep, rep])[1..] == p[1..] + [rep, rep];
      CollapseRunsDoubled(p[1..], cs, rep);
    }
  }

  /** The longest prefix of `s` holding no character of `cs`. */
  function WordPrefix(s: string, cs: set<char>): (w: string)
    ensures |w| <= |s|
    ensures s != [] && s[0] !in cs ==> |w| >= 1
  {
    if s == [] || s[0] in cs then [] else [s[0]] + WordPrefix(s[1..], cs)
  }

  /** The first word is a prefix free of `cs`, and it stops only at the
      end of `s` or at a character of `cs`. */
  lemma {:induction false} WordPrefixShape(s: string, cs: set<char>)
    ensures var w := WordPrefix(s, cs);
      && w == s[..|w|]
      && (forall i :: 0 <= i < |w| ==> w[i] !in cs)
      && (|w| < |s| ==> s[|w|] in cs)
    decreases |s|
  {
    if s != [] && s[0] !in cs {
      WordPrefixShape(s[1..], cs);
    }
  }

  /** A tail made of `cs` only does not change the first word. */
  lemma {:induction false} WordPrefixAppend(t: string, run: string, cs: set<char>)
    requires forall i :: 0 <= i < |run| ==> run[i] in cs
    ensures WordPrefix(t + run, cs) == WordPrefix(t, cs)
    decreases |t|
  {
    if t != [] && t[0] !in cs {
      assert (t + run)[1..] == t[1..] + run;
      WordPrefixAppend(t[1..], run, cs);
    }
  }

  /** Python's `s.split()` when `cs` is the whitespace: the maximal runs of
      characters outside `cs`, in order. */
  function SplitRuns(s: string, cs: set<char>): seq<string>
    decreases |s|
  {
    if s == [] then []
    else if s[0] in cs then SplitRuns(s[1..], cs)
    else
      var w := WordPrefix(s, cs);
      [w] + SplitRuns(s[|w|..], cs)
  }

  /** The words `split()` returns are non-empty and free of `cs`. */
  lemma {:induction false} SplitRunsShape(s: string, cs: set<char>)
    ensures forall k :: 0 <= k < |SplitRuns(s, cs)| ==>
      SplitRuns(s, cs)[k] != [] && Avoids(SplitRuns(s, cs)[k], cs)
    decreases |s|
  {
    if s != [] {
      if s[0] in cs {
        SplitRunsShape(s[1..], cs);
      } else {
        var w := WordPrefix(s, cs);
        WordPrefixShape(s, cs);
        SplitRunsShape(s[|w|..], cs);
      }
    }
  }

  /** Leading characters of `cs` give no word. */
  lemma {:induction false} SplitRunsLeading(s: string, cs: set<char>)
    ensures SplitRuns(DropLeading(s, cs), cs) == SplitRuns(s, cs)
    decreases |s|
  {
    if s != [] && s[0] in cs {
      SplitRunsLeading(s[1..], cs);
    }
  }

  /** Trailing characters of `cs` give no word. */
  lemma {:induction false} SplitRunsTrailing(t: string, run: string, cs: set<char>)
    requires forall i :: 0 <= i < |run| ==> run[i] in cs
    ensures SplitRuns(t + run, cs) == SplitRuns(t, cs)
    decreases |t| + |run|
  {
    if t == [] {
      if run != [] {
        assert [] + run[1..] == run[1..];
        SplitRunsTrailing([], run[1..], cs);
        assert ([] + run)[1..] == [] + run[1..];
      }
    } else if t[0] in cs {
      assert (t + run)[1..] == t[1..] + run;
      SplitRunsTrailing(t[1..], run, cs);
    } else {
      var w := WordPrefix(t, cs);
      WordPrefixAppend(t, run, cs);
      WordPrefixShape(t, cs);
      assert (t + run)[|w|..] == t[|w|..] + run;
      SplitRunsTrailing(t[|w|..], run, cs);
    }
  }

  /** Stripping `cs` from both ends does not change the words. */
  lemma SplitRunsStrip(s: string, cs: set<char>)
    ensures SplitRuns(DropTrailing(DropLeading(s, cs), cs), cs) == SplitRuns(s, cs)
  {
    var l := DropLeading(s, cs);
    var r := DropTrailing(l, cs);
    DropTrailingShape(l, cs);
    assert l == r + l[|r|..];
    SplitRunsTrailing(r, l[|r|..], cs);
    SplitRunsLeading(s, cs);
  }

  /** A word free of `cs` passes through `CollapseRuns` unchanged. */
  lemma {:induction false} CollapseRunsWord(w: string, rest: string, cs: set<char>, rep: char)
    requires Avoids(w, cs)
    ensures CollapseRuns(w + rest, cs, rep) == w + CollapseRuns(rest, cs, rep)
    decreases |w|
  {
    if w == [] {
      assert w + rest == rest;
    } else {
      var s := w + rest;
      assert s[0] == w[0] && w[0] !in cs;
      assert s[1..] == w[1..] + rest;
      CollapseRunsWord(w[1..], rest, cs, rep);
      assert CollapseRuns(s, cs, rep) == [w[0]] + CollapseRuns(s[1..], cs, rep);
      assert [w[0]] + w[1..] == w;
    }
  }

  /** On a text with no `cs` at either end, `re.sub('[cs]+', rep, s)` is the
      words of `s` joined by `rep`. */
  lemma {:induction false} CollapseRunsJoin(s: string, cs: set<char>, rep: char)
    requires s == [] || (s[0] !in cs && s[|s| - 1] !in cs)
    ensures CollapseRuns(s, cs, rep) == Join([rep], SplitRuns(s, cs))
    decreases |s|
  {
    if s != [] {
      var w := WordPrefix(s, cs);
      WordPrefixShape(s, cs);
      var rest := s[|w|..];
      assert s == w + rest;
      CollapseRunsWord(w, rest, cs, rep);
      assert SplitRuns(s, cs) == [w] + SplitRuns(rest, cs);
      if rest != [] {
        var t := DropLeading(rest, cs);
        DropLeadingShape(rest, cs);
        assert rest[|rest| - 1] == s[|s| - 1];
        assert t != [] && t[|t| - 1] == s[|s| - 1];
        CollapseRunsJoin(t, cs, rep);
        SplitRunsLeading(rest, cs);
        assert SplitRuns(t, cs) != [];
        assert CollapseRuns(rest, cs, rep) == [rep] + CollapseRuns(t, cs, rep);
      }
    }
  }

  /** A string with no two adjacent characters of `cs`, whose only character
      of `cs` is `rep`, is left unchanged by `CollapseRuns`. */
  lemma {:induction false} CollapseRunsIdentity(s: string, cs: set<char>, rep: char)
    requires forall i :: 0 <= i < |s| && s[i] in cs ==> s[i] == rep
    requires forall i :: 0 <= i < |s| - 1 ==> !(s[i] in cs && s[i + 1] in cs)
    ensures CollapseRuns(s, cs, rep) == s
    decreases |s|
  {
    if s != [] {
      var t := s[1..];
      assert forall i :: 0 <= i < |t| && t[i] in cs ==> t[i] == rep by {
        forall i | 0 <= i < |t| && t[i] in cs ensures t[i] == rep {
          assert t[i] == s[i + 1];
        }
      }
      assert forall i :: 0 <= i < |t| - 1 ==> !(t[i] in cs && t[i + 1] in cs) by {
        forall i | 0 <= i < |t| - 1 ensures !(t[i] in cs && t[i + 1] in cs) {
          assert t[i] == s[i + 1] && t[i + 1] == s[i + 2];
        }
      }
      CollapseRunsIdentity(t, cs, rep);
      if s[0] in cs {
        assert t == [] || t[0] !in cs;
        assert DropLeading(s, cs) == DropLeading(t, cs);
        assert DropLeading(s, cs) == t;
        assert CollapseRuns(s, cs, rep) == [rep] + t;
      } else {
        assert CollapseRuns(s, cs, rep) == [s[0]] + t;
      }
    }
  }

  /** `sep.join(parts)`. */
  function Join(sep: string, parts: seq<string>): string {
    if parts == [] then []
    else if |parts| == 1 then parts[0]
    else parts[0] + sep + Join(sep, parts[1..])
  }

  /** Joining one more part adds the separator and the part at the end. */
  lemma {:induction false} JoinAppend(sep: string, parts: seq<string>, x: string)
    ensures Join(sep, parts + [x]) == if parts == [] then x else Join(sep, parts) + sep + x
  {
    if |parts| > 1 {
      assert (parts + [x])[1..] == parts[1..] + [x];
      JoinAppend(sep, parts[1..], x);
    } else if |parts| == 1 {
      assert (parts + [x])[1..] == [x];
    }
  }

  /** No character of `s` is in `cs`. */
  predicate Avoids(s: string, cs: set<char>) {
    forall i :: 0 <= i < |s| ==> s[i] !in cs
  }

  /** Parts and a separator free of `cs` join into a string free of `cs`. */
  lemma {:induction false} JoinAvoids(sep: string, parts: seq<string>, cs: set<char>)
    requires Avoids(sep, cs)
    requires forall k :: 0 <= k < |parts| ==> Avoids(parts[k], cs)
    ensures Avoids(Join(sep, parts), cs)
  {
    if |parts| > 1 {
      JoinAvoids(sep, parts[1..], cs);
      var rest := Join(sep, parts[1..]);
      assert Join(sep, parts) == parts[0] + sep + rest;
      assert Avoids(parts[0], cs);
    }
  }

  /** `strip()` only removes characters, so it adds none of `cs`. */
  lemma StripAvoids(s: string, cs: set<char>)
    requires Avoids(s, cs)
    ensures Avoids(Strip(s), cs)
  {
    DropAvoids(s, Whitespace, cs);
  }

  lemma DropAvoids(s: string, ws: set<char>, cs: set<char>)
    requires Avoids(s, cs)
    ensures Avoids(DropTrailing(DropLeading(s, ws), ws), cs)
  {
    DropBothShape(s, ws);
  }

  /** A join starts with the first part and ends with the last one. */
  lemma {:induction false} JoinEnds(sep: string, parts: seq<string>)
    requires parts != []
    ensures var j := Join(sep, parts);
      var last := parts[|parts| - 1];
      && |parts[0]| <= |j| && j[..|parts[0]|] == parts[0]
      && |last| <= |j| && j[|j| - |last|..] == last
  {
    if |parts| > 1 {
      var rest := Join(sep, parts[1..]);
      assert Join(sep, parts) == parts[0] + sep + rest;
      var front := parts[..|parts| - 1];
      var last := parts[|parts| - 1];
      assert parts == front + [last];
      JoinAppend(sep, front, last);
    }
  }

  /** `s.split(sep)` for a non-empty separator: the pieces between the
      occurrences of `sep`, found left to right without overlap. */
  function SplitOn(s: string, sep: string): (r: seq<string>)
    requires sep != []
    ensures |r| >= 1
    decreases |s|
  {
    if |s| < |sep| then [s]
    else if s[..|sep|] == sep then [[]] + SplitOn(s[|sep|..], sep)
    else
      var rest := SplitOn(s[1..], sep);
      [[s[0]] + rest[0]] + rest[1..]
  }

  /** Joining the pieces of a split with the same separator gives back the string. */
  lemma {:induction false} JoinSplitOn(s: string, sep: string)
    requires sep != []
    ensures Join(sep, SplitOn(s, sep)) == s
    decreases |s|
  {
    if |s| < |sep| {
    } else if s[..|sep|] == sep {
      var rest := SplitOn(s[|sep|..], sep);
      JoinSplitOn(s[|sep|..], sep);
      var r := [[]] + rest;
      assert SplitOn(s, sep) == r;
      assert r[0] == [] && r[1..] == rest && |r| > 1;
      assert Join(sep, r) == [] + sep + Join(sep, rest);
      assert s == s[..|sep|] + s[|sep|..];
    } else {
      var rest := SplitOn(s[1..], sep);
      JoinSplitOn(s[1..], sep);
      assert SplitOn(s, sep) == [[s[0]] + rest[0]] + rest[1..];
      JoinExtendHead(sep, [s[0]], rest);
      assert s == [s[0]] + s[1..];
    }
  }

  /** Prefixing the first part of a join prefixes the join. */
  lemma JoinExtendHead(sep: string, x: string, parts: seq<string>)
    requires parts != []
    ensures Join(sep, [x + parts[0]] + parts[1..]) == x + Join(sep, parts)
  {
    var r := [x + parts[0]] + parts[1..];
    if |parts| == 1 {
      assert r == [x + parts[0]];
    } else {
      assert r[0] == x + parts[0] && r[1..] == parts[1..] && |r| > 1;
      assert Join(sep, r) == r[0] + sep + Join(sep, parts[1..]);
    }
  }

  /** `sep` occurs in `s` starting at index `i`. */
  predicate OccursAt(s: string, sep: string, i: nat) {
    i + |sep| <= |s| && s[i..i + |sep|] == sep
  }

  /** `sep` occurs nowhere in `s`. */
  predicate NoOccurrence(s: string, sep: string) {
    forall i: nat :: i <= |s| ==> !OccursAt(s, sep, i)
  }

  /** A string missing one of the characters of `sep` holds no occurrence of it. */
  lemma NoOccurrenceMissing(s: string, sep: string, j: nat)
    requires j < |sep| && sep[j] !in s
    ensures NoOccurrence(s, sep)
  {
    forall i: nat | i + |sep| <= |s| ensures !OccursAt(s, sep, i) {
      assert s[i..i + |sep|][j] == s[i + j];
    }
  }

  /** The first piece of a split is a prefix of the string split. */
  lemma {:induction false} SplitOnHead(s: string, sep: string)
    requires sep != []
    ensures |SplitOn(s, sep)[0]| <= |s| && SplitOn(s, sep)[0] == s[..|SplitOn(s, sep)[0]|]
    decreases |s|
  {
    if |s| >= |sep| && s[..|sep|] != sep {
      SplitOnHead(s[1..], sep);
    }
  }

  /** `str.split(sep)` cuts at every occurrence: no piece holds `sep`. */
  lemma {:induction false} SplitOnPiecesLackSeparator(s: string, sep: string)
    requires sep != []
    ensures forall k :: 0 <= k < |SplitOn(s, sep)| ==> NoOccurrence(SplitOn(s, sep)[k], sep)
    decreases |s|
  {
    if |s| < |sep| {
      assert SplitOn(s, sep) == [s];
    } else if s[..|sep|] == sep {
      SplitOnPiecesLackSeparator(s[|sep|..], sep);
      assert SplitOn(s, sep) == [[]] + SplitOn(s[|sep|..], sep);
    } else {
      var rest := SplitOn(s[1..], sep);
      SplitOnPiecesLackSeparator(s[1..], sep);
      SplitOnHead(s[1..], sep);
      HeadLacksSeparator(s, sep, rest[0]);
      assert SplitOn(s, sep) == [[s[0]] + rest[0]] + rest[1..];
    }
  }

  /** A text that does not start with `sep`: its first character followed
      by a `sep`-free prefix of the rest holds no `sep`. */
  lemma HeadLacksSeparator(s: string, sep: string, piece: string)
    requires sep != [] && |s| >= |sep| && s[..|sep|] != sep
    requires |piece| <= |s| - 1 && piece == s[1..][..|piece|]
    requires NoOccurrence(piece, sep)
    ensures NoOccurrence([s[0]] + piece, sep)
  {
    var head := [s[0]] + piece;
    assert head == s[..|head|];
    forall i: nat | i + |sep| <= |head| ensures !OccursAt(head, sep, i) {
      if i == 0 {
        assert head[..|sep|] == s[..|sep|];
      } else {
        assert !OccursAt(piece, sep, i - 1);
        assert head[i..i + |sep|] == piece[i - 1..i - 1 + |sep|];
      }
    }
  }

  /** A split on a character the string does not hold leaves it whole. */
  lemma {:induction false} SplitOnAbsent(s: string, c: char)
    requires c !in s
    ensures SplitOn(s, [c]) == [s]
    decreases |s|
  {
    if |s| >= 1 {
      assert s[0] in s;
      assert s[..1] == [s[0]] != [c];
      SplitOnAbsent(s[1..], c);
      assert [s[0]] + s[1..] == s;
    }
  }

  /** A word without `c` followed by `c` is the first piece of a split on `c`. */
  lemma {:induction false} SplitOnWord(w: string, c: char, rest: string)
    requires c !in w
    ensures SplitOn(w + [c] + rest, [c]) == [w] + SplitOn(rest, [c])
    decreases |w|
  {
    var s := w + [c] + rest;
    if w == [] {
      assert s[..1] == [c] && s[1..] == rest;
    } else {
      assert s[0] == w[0] && w[0] in w;
      assert s[..1] == [w[0]] != [c];
      assert s[1..] == w[1..] + [c] + rest;
      SplitOnWord(w[1..], c, rest);
      assert [w[0]] + w[1..] == w;
    }
  }

  /** Splitting on `c` undoes joining with `c` parts that do not hold it. */
  lemma {:induction false} SplitOnJoin(parts: seq<string>, c: char)
    requires parts != []
    requires forall k :: 0 <= k < |parts| ==> c !in parts[k]
    ensures SplitOn(Join([c], parts), [c]) == parts
    decreases |parts|
  {
    if |parts| == 1 {
      SplitOnAbsent(parts[0], c);
    } else {
      SplitOnWord(parts[0], c, Join([c], parts[1..]));
      SplitOnJoin(parts[1..], c);
    }
  }

  /** The pieces of a split on a one-character separator never contain that
      character, and hold only characters of the string split. */
  lemma {:induction false} SplitOnPiecesFree(s: string, c: char)
    ensures forall k :: 0 <= k < |SplitOn(s, [c])| ==>
      c !in SplitOn(s, [c])[k] && forall x :: x in SplitOn(s, [c])[k] ==> x in s
    decreases |s|
  {
    if |s| >= 1 {
      SplitOnPiecesFree(s[1..], c);
      assert forall x :: x in s[1..] ==> x in s;
      if s[..1] != [c] {
        assert s[0] != c;
      }
    }
  }

  /** When the separator is the only character of `cs` a string holds, the
      pieces of a split on it hold no character of `cs` at all. */
  lemma SplitOnPiecesOutside(s: string, c: char, cs: set<char>)
    requires forall i :: 0 <= i < |s| && s[i] in cs ==> s[i] == c
    ensures forall k, i :: 0 <= k < |SplitOn(s, [c])| && 0 <= i < |SplitOn(s, [c])[k]| ==>
      SplitOn(s, [c])[k][i] !in cs
  {
    var pieces := SplitOn(s, [c]);
    SplitOnPiecesFree(s, c);
    forall k, i | 0 <= k < |pieces| && 0 <= i < |pieces[k]| ensures pieces[k][i] !in cs {
      var x := pieces[k][i];
      assert x in pieces[k];
      assert x in s && x != c;
    }
  }

  /** `s` has no leading or trailing `c` and never two `c` side by side. */
  predicate SingleSeparated(s: string, c: char) {
    && (s == [] || (s[0] != c && s[|s| - 1] != c))
    && forall i :: 0 <= i < |s| - 1 ==> !(s[i] == c && s[i + 1] == c)
  }

  /** Splitting a non-empty, single-separated string on its separator yields no empty piece. */
  lemma SplitOnPiecesNonEmpty(s: string, c: char)
    requires s != [] && SingleSeparated(s, c)
    ensures forall k :: 0 <= k < |SplitOn(s, [c])| ==> SplitOn(s, [c])[k] != []
  {
    SplitOnLaterPiecesNonEmpty(s, c);
    assert s[..1] != [c];
  }

  /** Every piece but the first of a split of a string with no trailing
      separator and no doubled separator is non-empty. */
  lemma {:induction false} SplitOnLaterPiecesNonEmpty(s: string, c: char)
    requires s == [] || s[|s| - 1] != c
    requires forall i :: 0 <= i < |s| - 1 ==> !(s[i] == c && s[i + 1] == c)
    ensures forall k :: 1 <= k < |SplitOn(s, [c])| ==> SplitOn(s, [c])[k] != []
    decreases |s|
  {
    if |s| >= 1 {
      var rest := SplitOn(s[1..], [c]);
      SplitOnLaterPiecesNonEmpty(s[1..], c);
      if s[..1] == [c] {
        // the piece that follows a separator starts with a non-separator
        assert s[1..] != [] && s[1] != c;
        assert s[1..][..1] != [c];
        assert rest[0] != [];
      }
    }
  }

  /** `s.replace(x, '')` for one character, and in general every element equal
      to `x` removed from a sequence. */
  function Without<T(==)>(s: seq<T>, x: T): (r: seq<T>)
    ensures x !in r
  {
    if s == [] then []
    else (if s[0] == x then [] else [s[0]]) + Without(s[1..], x)
  }

  /** `replace` keeps every other element, each as many times as before. */
  lemma {:induction false} WithoutCounts<T>(s: seq<T>, x: T)
    ensures multiset(Without(s, x)) == multiset(s)[x := 0]
  {
    if s != [] {
      WithoutCounts(s[1..], x);
      assert s == [s[0]] + s[1..];
    }
  }

  /** `Without` distributes over concatenation. */
  lemma {:induction false} WithoutConcat<T>(a: seq<T>, b: seq<T>, x: T)
    ensures Without(a + b, x) == Without(a, x) + Without(b, x)
  {
    if a == [] {
      assert a + b == b;
    } else {
      assert (a + b)[0] == a[0];
      assert (a + b)[1..] == a[1..] + b;
      WithoutConcat(a[1..], b, x);
    }
  }

  /** Without an occurrence of `x`, `Without` changes nothing. */
  lemma {:induction false} WithoutAbsent<T>(s: seq<T>, x: T)
    requires x !in s
    ensures Without(s, x) == s
  {
    if s != [] {
      WithoutAbsent(s[1..], x);
    }
  }

  /** `s.index(x)`: the position of the first occurrence of `x`. */
  function IndexOf<T(==)>(s: seq<T>, x: T): (k: nat)
    requires x in s
    ensures k < |s| && s[k] == x && x !in s[..k]
  {
    if s[0] == x then 0
    else
      var k := IndexOf(s[1..], x);
      assert s[..k + 1] == [s[0]] + s[1..][..k];
      k + 1
  }

  /** `readlines()` on a decoded text whose line endings are '\n': each line
      keeps its '\n'; the last line may lack one. */
  function ReadLines(text: string): seq<string>
    decreases |text|
  {
    if '\n' !in text then (if text == [] then [] else [text])
    else
      var k := IndexOf(text, '\n');
      [text[..k + 1]] + ReadLines(text[k + 1..])
  }

  /** The lines `readlines()` returns are non-empty, each holds a '\n' only as
      its last character, every one but the last ends with '\n', and
      together they spell the text. */
  lemma {:induction false} ReadLinesShape(text: string)
    ensures var lines := ReadLines(text);
      && Join("", lines) == text
      && (forall k :: 0 <= k < |lines| ==> lines[k] != [] && '\n' !in lines[k][..|lines[k]| - 1])
      && (forall k :: 0 <= k < |lines| - 1 ==> lines[k][|lines[k]| - 1] == '\n')
    decreases |text|
  {
    if '\n' in text {
      var k := IndexOf(text, '\n');
      var line := text[..k + 1];
      var rest := ReadLines(text[k + 1..]);
      ReadLinesShape(text[k + 1..]);
      var lines := [line] + rest;
      assert ReadLines(text) == lines;
      assert line[..k] == text[..k];
      assert lines[1..] == rest;
      if rest == [] {
        assert text[k + 1..] == [];
        assert text == line;
      } else {
        assert Join("", lines) == line + Join("", rest);
        assert text == line + text[k + 1..];
      }
    }
  }
}
