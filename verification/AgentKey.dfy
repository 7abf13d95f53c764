/** The canonical key of an agent name: its alphanumeric runs in lower case, joined by single dashes. */
module AgentKey {
  import opened Text
  import opened Words
  import opened Lines

  function LowerRuns(name: string): seq<string> {
    Lines.Map(Runs(name, IsAlphanumeric), Lower)
  }

  function Key(name: string): string {
    Join(LowerRuns(name), '-')
  }

  /** A dash is pending behind a run that something else has followed. */
  predicate PendingDash(read: string) {
    read != [] && LowerRuns(read) != [] && !IsAlphanumeric(read[|read| - 1])
  }

  /** What the automaton has written when it has read `read`. */
  function Written(read: string): string {
    Key(read) + if PendingDash(read) then "-" else ""
  }

  method CanonicalAgentKey(agent: string) returns (key: string)
    ensures key == Key(agent)
  {
    var trimmed := Trim(agent);
    TrimKeepsRuns(agent);
    if trimmed == [] {
      return "";
    }
    key := [];
    var lastWasDash := false;
    for i := 0 to |trimmed|
      invariant key == Written(trimmed[..i])
      invariant lastWasDash == PendingDash(trimmed[..i])
    {
      var ch := trimmed[i];
      assert trimmed[..i + 1] == trimmed[..i] + [ch];
      WriteOne(trimmed[..i], ch);
      if IsAlphanumeric(ch) {
        key := key + [LowerChar(ch)];
        lastWasDash := false;
      } else if key != [] && !lastWasDash {
        key := key + "-";
        lastWasDash := true;
      }
    }
    assert trimmed[..|trimmed|] == trimmed;
    KeyEndsInRun(trimmed);
    while key != [] && key[|key| - 1] == '-'
      invariant key == Key(trimmed) || key == Key(trimmed) + "-"
    {
      assert key == Key(trimmed) + "-" ==> key[..|key| - 1] == Key(trimmed);
      key := key[..|key| - 1];
    }
  }

  lemma {:induction false} JoinAppend(words: seq<string>, w: string, sep: char)
    ensures Join(words + [w], sep) == if words == [] then w else Join(words, sep) + [sep] + w
  {
    if |words| == 1 {
      assert words + [w] == [words[0], w];
      assert (words + [w])[1..] == [w];
    } else if |words| > 1 {
      assert (words + [w])[1..] == words[1..] + [w];
      JoinAppend(words[1..], w, sep);
      assert words[0] + [sep] + (Join(words[1..], sep) + [sep] + w) == Join(words, sep) + [sep] + w;
    }
  }

  lemma {:induction false} JoinExtend(words: seq<string>, c: char, sep: char)
    requires words != []
    ensures Join(words[..|words| - 1] + [words[|words| - 1] + [c]], sep) == Join(words, sep) + [c]
  {
    var front, last := words[..|words| - 1], words[|words| - 1];
    assert words == front + [last];
    JoinAppend(front, last, sep);
    JoinAppend(front, last + [c], sep);
  }

  lemma LowerAppend(w: string, c: char)
    ensures Lower(w + [c]) == Lower(w) + [LowerChar(c)]
  {
  }

  /** The lowered runs when one more character has been read. */
  lemma LowerRunsAppend(read: string, c: char)
    ensures var joins := read != [] && IsAlphanumeric(read[|read| - 1]);
            && (joins ==> LowerRuns(read) != [])
            && LowerRuns(read + [c]) ==
               if IsAlphanumeric(c) then Extend(LowerRuns(read), LowerChar(c), joins) else LowerRuns(read)
  {
    var runs := Runs(read, IsAlphanumeric);
    RunsAppend(read, c, IsAlphanumeric);
    assert Lower([c]) == [LowerChar(c)];
    if runs != [] {
      LowerAppend(runs[|runs| - 1], c);
    }
  }

  lemma JoinExtended(words: seq<string>, c: char, joins: bool)
    ensures Join(Extend(words, c, joins), '-') ==
            Join(words, '-') + if words != [] && !joins then ['-', c] else [c]
  {
    if joins && words != [] {
      JoinExtend(words, c, '-');
    } else {
      JoinAppend(words, [c], '-');
    }
  }

  /** How one character moves the automaton. */
  lemma WriteOne(read: string, c: char)
    ensures Written(read + [c]) ==
            if IsAlphanumeric(c) then Written(read) + [LowerChar(c)]
            else if Written(read) != [] && !PendingDash(read) then Written(read) + "-"
            else Written(read)
    ensures PendingDash(read + [c]) <==> !IsAlphanumeric(c) && Written(read) != []
  {
    LowerRunsAppend(read, c);
    LowerRunsAreRuns(read);
    JoinIsEmptyIff(LowerRuns(read));
    if IsAlphanumeric(c) {
      JoinExtended(LowerRuns(read), LowerChar(c), read != [] && IsAlphanumeric(read[|read| - 1]));
    }
    assert (read + [c])[|read|] == c;
  }

  lemma JoinIsEmptyIff(words: seq<string>)
    requires forall i :: 0 <= i < |words| ==> words[i] != []
    ensures Join(words, '-') == [] <==> words == []
  {
  }

  lemma LowerRunsAreRuns(name: string)
    ensures AllRuns(LowerRuns(name), IsAlphanumeric)
  {
    RunsAreRuns(name, IsAlphanumeric);
    var runs := Runs(name, IsAlphanumeric);
    forall i | 0 <= i < |runs| ensures IsRun(LowerRuns(name)[i], IsAlphanumeric) {
      assert IsRun(runs[i], IsAlphanumeric);
    }
  }

  lemma KeyEndsInRun(name: string)
    ensures Key(name) == [] || IsAlphanumeric(Key(name)[|Key(name)| - 1])
  {
    LowerRunsAreRuns(name);
    JoinEndsInRun(LowerRuns(name));
  }

  lemma {:induction false} JoinEndsInRun(words: seq<string>)
    requires AllRuns(words, IsAlphanumeric)
    ensures words != [] ==> Join(words, '-') != [] && IsAlphanumeric(Join(words, '-')[|Join(words, '-')| - 1])
  {
    if |words| == 1 {
      assert IsRun(words[0], IsAlphanumeric);
    } else if |words| > 1 {
      JoinEndsInRun(words[1..]);
    }
  }

  lemma TrimKeepsRuns(name: string)
    ensures Key(Trim(name)) == Key(name)
  {
    RunsOfTrimStart(name, IsAlphanumeric);
    RunsOfTrimEnd(TrimStart(name), IsAlphanumeric);
  }

  // ---- What the key is for ----

  /** The runs of a key are the lowered runs of the name. */
  lemma RunsOfKey(name: string)
    ensures Runs(Key(name), IsAlphanumeric) == LowerRuns(name)
  {
    LowerRunsAreRuns(name);
    RunsOfJoined(LowerRuns(name), '-', IsAlphanumeric);
  }

  /** Two names share a key exactly when they have the same runs up to case. */
  lemma SameKeyIff(a: string, b: string)
    ensures Key(a) == Key(b) <==> LowerRuns(a) == LowerRuns(b)
  {
    RunsOfKey(a);
    RunsOfKey(b);
  }

  lemma LowerIsIdempotent(s: string)
    ensures Lower(Lower(s)) == Lower(s)
  {
  }

  /** A key is its own key. */
  lemma KeyIsIdempotent(name: string)
    ensures Key(Key(name)) == Key(name)
  {
    RunsOfKey(name);
    var words := LowerRuns(name);
    forall i | 0 <= i < |words| ensures Lower(words[i]) == words[i] {
      LowerIsIdempotent(Runs(name, IsAlphanumeric)[i]);
    }
    assert LowerRuns(Key(name)) == words;
  }
}
