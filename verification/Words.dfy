/** Maximal runs of characters, as `split_whitespace` yields them, and joining them again. */
module Words {
  import opened Text

  /** The runs of these are the words between whitespace. */
  function IsSolid(): char -> bool {
    (c: char) => !IsWhitespace(c)
  }

  /** The maximal runs of characters that satisfy `keep`. */
  function Runs(s: string, keep: char -> bool): (runs: seq<string>)
    ensures s != [] && keep(s[0]) ==> runs != []
  {
    if s == [] then []
    else
      var rest := Runs(s[1..], keep);
      if !keep(s[0]) then rest
      else if |s| > 1 && keep(s[1]) then [[s[0]] + rest[0]] + rest[1..]
      else [[s[0]]] + rest
  }

  function Join(words: seq<string>, sep: char): string {
    if words == [] then []
    else if |words| == 1 then words[0]
    else words[0] + [sep] + Join(words[1..], sep)
  }

  /** Splitting leaves no separator in a piece, and joining the pieces undoes it. */
  lemma {:induction false} SplitShape(s: string, sep: char)
    ensures forall i :: 0 <= i < |Split(s, sep)| ==> sep !in Split(s, sep)[i]
    ensures Join(Split(s, sep), sep) == s
  {
    if s != [] {
      SplitShape(s[1..], sep);
      var rest := Split(s[1..], sep);
      if s[0] != sep {
        assert Join([[s[0]] + rest[0]] + rest[1..], sep) == [s[0]] + Join(rest, sep) by {
          if |rest| > 1 {
            assert ([[s[0]] + rest[0]] + rest[1..])[1..] == rest[1..];
            assert [s[0]] + (rest[0] + [sep] + Join(rest[1..], sep)) == [s[0]] + rest[0] + [sep] + Join(rest[1..], sep);
          }
        }
      } else {
        assert ([[]] + rest)[1..] == rest;
      }
    }
  }

  /** A word of characters to keep. */
  predicate IsRun(w: string, keep: char -> bool) {
    w != [] && forall i :: 0 <= i < |w| ==> keep(w[i])
  }

  predicate AllRuns(words: seq<string>, keep: char -> bool) {
    forall i :: 0 <= i < |words| ==> IsRun(words[i], keep)
  }

  lemma {:induction false} RunsAreRuns(s: string, keep: char -> bool)
    ensures AllRuns(Runs(s, keep), keep)
  {
    if s != [] {
      RunsAreRuns(s[1..], keep);
    }
  }

  lemma {:induction false} RunThenSeparator(w: string, sep: char, rest: string, keep: char -> bool)
    requires IsRun(w, keep) && !keep(sep)
    ensures Runs(w + [sep] + rest, keep) == [w] + Runs(rest, keep)
  {
    var s := w + [sep] + rest;
    assert s[1..] == w[1..] + [sep] + rest;
    if |w| == 1 {
      assert s[1..][1..] == rest;
      assert w == [w[0]];
    } else {
      RunThenSeparator(w[1..], sep, rest, keep);
      assert [w[0]] + w[1..] == w;
    }
  }

  lemma {:induction false} RunsSkip(before: string, s: string, keep: char -> bool)
    requires forall i :: 0 <= i < |before| ==> !keep(before[i])
    ensures Runs(before + s, keep) == Runs(s, keep)
  {
    if before == [] {
      assert before + s == s;
    } else {
      assert (before + s)[1..] == before[1..] + s;
      RunsSkip(before[1..], s, keep);
    }
  }

  lemma {:induction false} RunAlone(w: string, keep: char -> bool)
    requires IsRun(w, keep)
    ensures Runs(w, keep) == [w]
  {
    if |w| == 1 {
      assert w == [w[0]];
    } else {
      RunAlone(w[1..], keep);
      assert [w[0]] + w[1..] == w;
    }
  }

  /** Joined with a separator that is not kept, runs are found again. */
  lemma {:induction false} RunsOfJoined(words: seq<string>, sep: char, keep: char -> bool)
    requires AllRuns(words, keep) && !keep(sep)
    ensures Runs(Join(words, sep), keep) == words
  {
    if |words| == 1 {
      RunAlone(words[0], keep);
    } else if |words| > 1 {
      RunThenSeparator(words[0], sep, Join(words[1..], sep), keep);
      RunsOfJoined(words[1..], sep, keep);
    }
  }

  /** One more character for the last run, or for a new one. */
  function Extend(runs: seq<string>, c: char, joins: bool): seq<string> {
    if joins && runs != [] then runs[..|runs| - 1] + [runs[|runs| - 1] + [c]] else runs + [[c]]
  }

  lemma ExtendBehind(x: char, rest: seq<string>, c: char, joins: bool)
    requires rest != []
    ensures Extend([[x]] + rest, c, joins) == [[x]] + Extend(rest, c, joins)
    ensures var r := Extend(rest, c, joins);
            Extend([[x] + rest[0]] + rest[1..], c, joins) == [[x] + r[0]] + r[1..]
  {
    var joined := [[x] + rest[0]] + rest[1..];
    if |rest| == 1 {
      assert [x] + (rest[0] + [c]) == ([x] + rest[0]) + [c];
    } else if joins {
      var n := |rest| - 1;
      assert joined[..n] == [[x] + rest[0]] + rest[1..n] && joined[n] == rest[n];
    }
  }

  /** How one more character changes the runs. */
  lemma {:induction false} RunsAppend(s: string, c: char, keep: char -> bool)
    ensures s != [] && keep(s[|s| - 1]) ==> Runs(s, keep) != []
    ensures Runs(s + [c], keep) ==
            if !keep(c) then Runs(s, keep) else Extend(Runs(s, keep), c, s != [] && keep(s[|s| - 1]))
  {
    if s == [] {
      assert (s + [c])[1..] == [];
    } else {
      assert (s + [c])[1..] == s[1..] + [c];
      RunsAppend(s[1..], c, keep);
      if |s| == 1 {
        assert s[1..] == [] && [s[0]] + [c] == [s[0], c];
      } else if Runs(s[1..], keep) != [] {
        ExtendBehind(s[0], Runs(s[1..], keep), c, keep(s[|s| - 1]));
      }
    }
  }

  lemma {:induction false} RunsOfTrimStart(s: string, keep: char -> bool)
    requires forall c :: keep(c) ==> !IsWhitespace(c)
    ensures Runs(TrimStart(s), keep) == Runs(s, keep)
  {
    if s != [] && IsWhitespace(s[0]) {
      RunsOfTrimStart(s[1..], keep);
    }
  }

  lemma {:induction false} RunsOfTrimEnd(s: string, keep: char -> bool)
    requires forall c :: keep(c) ==> !IsWhitespace(c)
    ensures Runs(TrimEnd(s), keep) == Runs(s, keep)
  {
    if s != [] && IsWhitespace(s[|s| - 1]) {
      var shorter := s[..|s| - 1];
      assert s == shorter + [s[|s| - 1]];
      RunsAppend(shorter, s[|s| - 1], keep);
      RunsOfTrimEnd(shorter, keep);
    }
  }
}
