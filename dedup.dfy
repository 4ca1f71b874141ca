/**
 * Removal of repeated output lines: for every non-blank line, the later
 * lines equal to it are removed; blank lines are neither removed nor compared.
 */
module LineDedup {
  import opened Builtins

  /** The specification of the source's pass: keep the first line, drop its
      later copies unless it is blank, and go on with the lines after it. */
  function Dedup(lines: seq<string>): seq<string>
    decreases |lines|
  {
    if lines == [] then []
    else if IsBlank(lines[0]) then [lines[0]] + Dedup(lines[1..])
    else
      LengthWithout(lines[1..], lines[0]);
      [lines[0]] + Dedup(Without(lines[1..], lines[0]))
  }

  /** `Without` never makes a sequence longer. */
  lemma {:induction false} LengthWithout<T>(s: seq<T>, x: T)
    ensures |Without(s, x)| <= |s|
  {
    if s != [] {
      LengthWithout(s[1..], x);
    }
  }

  /** A reference definition: a blank line is always kept, a non-blank line
      only if it is not among the non-blank lines `seen` before it. */
  function KeptAfter(seen: set<string>, lines: seq<string>): seq<string>
    decreases |lines|
  {
    if lines == [] then []
    else if IsBlank(lines[0]) then [lines[0]] + KeptAfter(seen, lines[1..])
    else if lines[0] in seen then KeptAfter(seen, lines[1..])
    else [lines[0]] + KeptAfter(seen + {lines[0]}, lines[1..])
  }

  /** The lines kept when each non-blank line is kept only at its first occurrence. */
  function FirstOccurrences(lines: seq<string>): seq<string> {
    KeptAfter({}, lines)
  }

  /** The lines of `s` that are blank, or non-blank and not in `seen`. */
  function WithoutSeen(s: seq<string>, seen: set<string>): seq<string> {
    if s == [] then []
    else (if IsBlank(s[0]) || s[0] !in seen then [s[0]] else []) + WithoutSeen(s[1..], seen)
  }

  lemma {:induction false} WithoutSeenStep(s: seq<string>, seen: set<string>, x: string)
    requires !IsBlank(x)
    ensures Without(WithoutSeen(s, seen), x) == WithoutSeen(s, seen + {x})
  {
    if s != [] {
      WithoutSeenStep(s[1..], seen, x);
      var head := if IsBlank(s[0]) || s[0] !in seen then [s[0]] else [];
      WithoutConcat(head, WithoutSeen(s[1..], seen), x);
      if head != [] {
        assert head[1..] == [];
      }
    }
  }

  lemma {:induction false} DedupWithoutSeen(lines: seq<string>, seen: set<string>)
    requires forall x :: x in seen ==> !IsBlank(x)
    ensures Dedup(WithoutSeen(lines, seen)) == KeptAfter(seen, lines)
    decreases |lines|
  {
    if lines != [] {
      var l := lines[0];
      var rest := WithoutSeen(lines[1..], seen);
      if IsBlank(l) || l !in seen {
        var w := [l] + rest;
        assert WithoutSeen(lines, seen) == w;
        assert w[0] == l && w[1..] == rest;
        if IsBlank(l) {
          DedupWithoutSeen(lines[1..], seen);
        } else {
          WithoutSeenStep(lines[1..], seen, l);
          DedupWithoutSeen(lines[1..], seen + {l});
        }
      } else {
        assert WithoutSeen(lines, seen) == [] + rest == rest;
        DedupWithoutSeen(lines[1..], seen);
      }
    }
  }

  lemma {:induction false} WithoutSeenNothing(lines: seq<string>)
    ensures WithoutSeen(lines, {}) == lines
  {
    if lines != [] {
      WithoutSeenNothing(lines[1..]);
    }
  }

  /** The source's pass keeps exactly the first occurrence of every
      non-blank line and every blank line. */
  lemma DedupIsFirstOccurrences(lines: seq<string>)
    ensures Dedup(lines) == FirstOccurrences(lines)
  {
    WithoutSeenNothing(lines);
    DedupWithoutSeen(lines, {});
  }

  lemma {:induction false} KeptAfterAppend(seen: set<string>, lines: seq<string>, x: string)
    ensures KeptAfter(seen, lines + [x])
      == KeptAfter(seen, lines) + (if IsBlank(x) || (x !in seen && x !in lines) then [x] else [])
    decreases |lines|
  {
    if lines == [] {
      assert lines + [x] == [x] && [x][1..] == [];
    } else {
      var l := lines[0];
      assert (lines + [x])[0] == l && (lines + [x])[1..] == lines[1..] + [x];
      var seen' := if IsBlank(l) || l in seen then seen else seen + {l};
      KeptAfterAppend(seen', lines[1..], x);
      assert x in lines <==> x == l || x in lines[1..];
    }
  }

  /** Line by line: appending a line keeps it exactly when it is blank or
      does not occur earlier. */
  lemma FirstOccurrencesAppend(lines: seq<string>, x: string)
    ensures FirstOccurrences(lines + [x])
      == FirstOccurrences(lines) + (if IsBlank(x) || x !in lines then [x] else [])
  {
    KeptAfterAppend({}, lines, x);
  }

  lemma {:induction false} KeptAfterLines(seen: set<string>, lines: seq<string>)
    ensures var r := KeptAfter(seen, lines);
      && (forall y :: y in r ==> y in lines)
      && (forall y :: y in lines && (IsBlank(y) || y !in seen) ==> y in r)
      && (forall y :: y in r && !IsBlank(y) ==> y !in seen)
    decreases |lines|
  {
    if lines != [] {
      var l := lines[0];
      var seen' := if IsBlank(l) || l in seen then seen else seen + {l};
      KeptAfterLines(seen', lines[1..]);
      assert forall y :: y in lines <==> y == l || y in lines[1..];
    }
  }

  /** Every line of the input is still there afterwards, and nothing else. */
  lemma FirstOccurrencesSameLines(lines: seq<string>)
    ensures forall y :: y in FirstOccurrences(lines) <==> y in lines
  {
    KeptAfterLines({}, lines);
  }

  lemma {:induction false} KeptAfterDistinct(seen: set<string>, lines: seq<string>)
    ensures DistinctNonBlank(KeptAfter(seen, lines))
    decreases |lines|
  {
    if lines != [] {
      var l := lines[0];
      var seen' := if IsBlank(l) || l in seen then seen else seen + {l};
      KeptAfterDistinct(seen', lines[1..]);
      if !IsBlank(l) && l !in seen {
        var tail := KeptAfter(seen', lines[1..]);
        KeptAfterLines(seen', lines[1..]);
        var r := [l] + tail;
        forall i, j | 0 <= i < j < |r| && !IsBlank(r[i]) ensures r[i] != r[j] {
          if i == 0 {
            assert r[j] == tail[j - 1] && tail[j - 1] in tail;
          } else {
            assert r[i] == tail[i - 1] && r[j] == tail[j - 1];
          }
        }
      } else if IsBlank(l) {
        var tail := KeptAfter(seen', lines[1..]);
        var r := [l] + tail;
        forall i, j | 0 <= i < j < |r| && !IsBlank(r[i]) ensures r[i] != r[j] {
          if 0 < i {
            assert r[i] == tail[i - 1] && r[j] == tail[j - 1];
          }
        }
      }
    }
  }

  /** No non-blank line occurs twice in `r`. */
  predicate DistinctNonBlank(r: seq<string>) {
    forall i, j :: 0 <= i < j < |r| && !IsBlank(r[i]) ==> r[i] != r[j]
  }

  /** No non-blank line occurs twice afterwards. */
  lemma FirstOccurrencesDistinct(lines: seq<string>)
    ensures DistinctNonBlank(FirstOccurrences(lines))
  {
    KeptAfterDistinct({}, lines);
  }

  /** The blank lines of a sequence, in order. */
  function Blanks(lines: seq<string>): seq<string> {
    if lines == [] then []
    else (if IsBlank(lines[0]) then [lines[0]] else []) + Blanks(lines[1..])
  }

  lemma {:induction false} KeptAfterBlanks(seen: set<string>, lines: seq<string>)
    ensures Blanks(KeptAfter(seen, lines)) == Blanks(lines)
    decreases |lines|
  {
    if lines != [] {
      var l := lines[0];
      var seen' := if IsBlank(l) || l in seen then seen else seen + {l};
      KeptAfterBlanks(seen', lines[1..]);
      var tail := KeptAfter(seen', lines[1..]);
      if IsBlank(l) || l !in seen {
        assert ([l] + tail)[1..] == tail;
      }
    }
  }

  /** Blank lines are never removed: the blank lines come out as they went in. */
  lemma FirstOccurrencesKeepsBlanks(lines: seq<string>)
    ensures Blanks(FirstOccurrences(lines)) == Blanks(lines)
  {
    KeptAfterBlanks({}, lines);
  }

  /** `a` is `b` with some elements left out, the rest in their order. */
  predicate IsSubsequence<T(==)>(a: seq<T>, b: seq<T>) {
    if a == [] then true
    else if b == [] then false
    else if a[0] == b[0] then IsSubsequence(a[1..], b[1..])
    else IsSubsequence(a, b[1..])
  }

  lemma {:induction false} KeptAfterSubsequence(seen: set<string>, lines: seq<string>)
    ensures IsSubsequence(KeptAfter(seen, lines), lines)
    decreases |lines|
  {
    if lines != [] {
      var l := lines[0];
      var seen' := if IsBlank(l) || l in seen then seen else seen + {l};
      KeptAfterSubsequence(seen', lines[1..]);
      var tail := KeptAfter(seen', lines[1..]);
      if IsBlank(l) || l !in seen {
        assert ([l] + tail)[0] == l && ([l] + tail)[1..] == tail;
      } else {
        SubsequenceSkip(tail, lines);
      }
    }
  }

  /** A subsequence of the tail is a subsequence of the whole. */
  lemma {:induction false} SubsequenceSkip<T>(a: seq<T>, b: seq<T>)
    requires b != [] && IsSubsequence(a, b[1..])
    ensures IsSubsequence(a, b)
    decreases |b|, 0
  {
    if a != [] && a[0] == b[0] {
      SubsequenceDrop(a, b[1..]);
    }
  }

  /** Dropping the first element keeps a subsequence a subsequence. */
  lemma {:induction false} SubsequenceDrop<T>(a: seq<T>, b: seq<T>)
    requires a != [] && IsSubsequence(a, b)
    ensures IsSubsequence(a[1..], b)
    decreases |b|, 1
  {
    assert b != [];
    if a[0] != b[0] {
      SubsequenceDrop(a, b[1..]);
    }
    SubsequenceSkip(a[1..], b);
  }

  /** Order is preserved: the result is the input with lines left out. */
  lemma FirstOccurrencesSubsequence(lines: seq<string>)
    ensures IsSubsequence(FirstOccurrences(lines), lines)
    ensures |FirstOccurrences(lines)| <= |lines|
  {
    KeptAfterSubsequence({}, lines);
    SubsequenceLength(FirstOccurrences(lines), lines);
  }

  lemma {:induction false} SubsequenceLength<T>(a: seq<T>, b: seq<T>)
    requires IsSubsequence(a, b)
    ensures |a| <= |b|
  {
    if a != [] {
      if a[0] == b[0] {
        SubsequenceLength(a[1..], b[1..]);
      } else {
        SubsequenceLength(a, b[1..]);
      }
    }
  }

  /** The source's pass, on a list it changes in place: for each non-blank
      line, the first later copy is popped while one is left. */
  method RemoveDuplicates(lines: seq<string>) returns (out: seq<string>)
    ensures out == Dedup(lines)
  {
    out := lines;
    var i := 0;
    while i < |out|
      invariant 0 <= i <= |out|
      invariant out[..i] + Dedup(out[i..]) == Dedup(lines)
    {
      var line := out[i];
      ghost var before := out;
      if !IsBlank(line) {
        while line in out[i + 1..]
          invariant i < |out| && out[..i + 1] == before[..i + 1]
          invariant Without(out[i + 1..], line) == Without(before[i + 1..], line)
          decreases |out|
        {
          var index := IndexOf(out[i + 1..], line) + i + 1;
          PopKeepsWithout(out, i + 1, index, line);
          out := out[..index] + out[index + 1..];
        }
        WithoutAbsent(out[i + 1..], line);
      }
      DedupAdvance(before, out, i);
      i := i + 1;
    }
    assert out[..i] == out;
  }

  /** One step of the outer loop: once the later copies of `before[i]` are
      gone (or it is blank and nothing was touched), line `i` is settled. */
  lemma DedupAdvance(before: seq<string>, after: seq<string>, i: nat)
    requires i < |before| && i < |after| && after[..i + 1] == before[..i + 1]
    requires IsBlank(before[i]) ==> after == before
    requires !IsBlank(before[i]) ==> after[i + 1..] == Without(before[i + 1..], before[i])
    ensures after[..i + 1] + Dedup(after[i + 1..]) == before[..i] + Dedup(before[i..])
  {
    var line := before[i];
    var tail := before[i + 1..];
    assert before[i..][0] == line && before[i..][1..] == tail;
    var rest := Dedup(after[i + 1..]);
    assert Dedup(before[i..]) == [line] + rest;
    assert after[..i + 1] == before[..i] + [line];
    assert (before[..i] + [line]) + rest == before[..i] + ([line] + rest);
  }

  /** Popping a copy of `x` from the tail of a list leaves the tail's other
      elements as they were. */
  lemma PopKeepsWithout(s: seq<string>, from: nat, index: nat, x: string)
    requires from <= index < |s| && s[index] == x
    ensures var t := s[..index] + s[index + 1..];
      |t| == |s| - 1 && t[..from] == s[..from] && Without(t[from..], x) == Without(s[from..], x)
  {
    var t := s[..index] + s[index + 1..];
    var a := s[from..index];
    var b := s[index + 1..];
    assert s[from..] == a + ([x] + b);
    assert t[from..] == a + b;
    WithoutPop(a, b, x);
  }

  lemma WithoutPop<T>(a: seq<T>, b: seq<T>, x: T)
    ensures Without(a + ([x] + b), x) == Without(a + b, x)
  {
    var c := [x] + b;
    assert c[0] == x && c[1..] == b;
    assert Without(c, x) == Without(b, x);
    WithoutConcat(a, c, x);
    WithoutConcat(a, b, x);
  }
}
