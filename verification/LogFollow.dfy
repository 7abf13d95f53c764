/** The follower of `bitloops daemon logs --follow`. A log that only grows is its latest content;
    what the follower sees at any moment is a prefix of it, given by its length. */
module LogFollow {
  import opened Options
  import opened Lines
  import opened Utf8

  /** `read_line` at `pos` when `len` bytes have been written. */
  function ReadLine(log: seq<Byte>, len: nat, pos: nat): (line: seq<Byte>)
    requires pos <= len <= |log|
  {
    if pos == len then [] else Chunks(log[pos..len], NL)[0]
  }

  /** What a read returns of a non-empty rest: a non-empty prefix with no newline but at its end. */
  lemma FirstPieceShape(rest: seq<Byte>)
    requires rest != []
    ensures var line := Chunks(rest, NL)[0];
            && line != [] && line <= rest && NL !in line[..|line| - 1]
            && (line[|line| - 1] != NL ==> line == rest)
  {
    FirstPiece(rest, NL);
    PieceShape(rest, NL, 0);
    var line := Chunks(rest, NL)[0];
    if line[|line| - 1] != NL {
      assert Chunks(rest[|line|..], NL) == [];
    }
  }

  lemma PrefixOfSlice(log: seq<Byte>, pos: nat, len: nat, line: seq<Byte>)
    requires pos <= len <= |log| && line <= log[pos..len]
    ensures pos + |line| <= len && line == log[pos..pos + |line|]
  {
  }

  /** A read moves over exactly what it returns; it stops early only behind a newline. */
  lemma ReadLineAdvances(log: seq<Byte>, len: nat, pos: nat)
    requires pos <= len <= |log|
    ensures var line := ReadLine(log, len, pos);
            && pos + |line| <= len && line == log[pos..pos + |line|]
            && (line == [] <==> pos == len)
            && (line != [] ==> NL !in line[..|line| - 1])
            && (line != [] && line[|line| - 1] != NL ==> pos + |line| == len)
  {
    if pos < len {
      FirstPieceShape(log[pos..len]);
      LineOfRest(log, pos, len, log[pos..len], ReadLine(log, len, pos));
    }
  }

  lemma LineOfRest(log: seq<Byte>, pos: nat, len: nat, rest: seq<Byte>, line: seq<Byte>)
    requires pos < len <= |log| && rest == log[pos..len] && line != [] && line <= rest
    ensures pos + |line| <= len && line == log[pos..pos + |line|] && (line == rest ==> pos + |line| == len)
  {
    PrefixOfSlice(log, pos, len, line);
  }

  predicate NonDecreasing(s: seq<nat>) {
    forall i, j :: 0 <= i < j < |s| ==> s[i] <= s[j]
  }

  /** One turn of the polling loop: the length of the log when it is measured, and the lengths it
      has at each read. The turn may be observed before it is over. */
  datatype Turn = Turn(measured: nat, seen: seq<nat>)

  function Lengths(turn: Turn): seq<nat> {
    [turn.measured] + turn.seen
  }

  function Last(turn: Turn): nat {
    Lengths(turn)[|turn.seen|]
  }

  predicate Within(turn: Turn, latest: nat) {
    turn.measured <= latest && forall i :: 0 <= i < |turn.seen| ==> turn.seen[i] <= latest
  }

  /** The lengths of a turn ascend from the measured one to the last. */
  lemma LengthsAscend(turn: Turn, k: nat)
    requires NonDecreasing(Lengths(turn)) && k < |turn.seen|
    ensures turn.measured <= Lengths(turn)[k] <= Lengths(turn)[k + 1] == turn.seen[k] <= Last(turn)
  {
    var lengths := Lengths(turn);
    assert lengths[0] == turn.measured;
  }

  /** The length of the log before a turn. */
  function Before(start: nat, turns: seq<Turn>, i: nat): nat
    requires i <= |turns|
  {
    if i == 0 then start else Last(turns[i - 1])
  }

  /** Lengths never shrink, and never exceed the latest length. */
  ghost predicate OnlyGrows(start: nat, turns: seq<Turn>, latest: nat) {
    start <= latest && forall i :: 0 <= i < |turns| ==> TurnFits(start, turns, i, latest)
  }

  predicate TurnFits(start: nat, turns: seq<Turn>, i: nat, latest: nat)
    requires i < |turns|
  {
    && NonDecreasing(Lengths(turns[i])) && Within(turns[i], latest)
    && Before(start, turns, i) <= turns[i].measured
  }

  /** A newline stands only at the end of a chunk, no chunk is empty, and each is valid UTF-8. */
  predicate IsChunk(chunk: seq<Byte>) {
    chunk != [] && NL !in chunk[..|chunk| - 1] && Decode(chunk).Some?
  }

  predicate WellCut(chunks: seq<seq<Byte>>) {
    forall i :: 0 <= i < |chunks| ==> IsChunk(chunks[i])
  }

  lemma DeliverOne(before: seq<seq<Byte>>, read: seq<seq<Byte>>, line: seq<Byte>)
    ensures before + read + [line] == before + (read + [line])
    ensures Flatten(read + [line]) == Flatten(read) + line
  {
    FlattenAppend(read, line);
  }

  lemma ReadIsChunk(log: seq<Byte>, len: nat, pos: nat)
    requires pos < len <= |log| && Decode(ReadLine(log, len, pos)).Some?
    ensures IsChunk(ReadLine(log, len, pos))
  {
    ReadLineAdvances(log, len, pos);
  }

  // ---- Why a read fails ----

  lemma NotInsideAfterNewline(log: seq<Byte>, end: nat)
    requires Decode(log).Some? && 0 < end <= |log| && log[end - 1] == NL
    ensures !Inside(log, end)
  {
    EncodeDecoded(log);
    NotInsideAfterAscii(Decode(log).value, end - 1);
  }

  lemma PieceFailsIff(log: seq<Byte>, pos: nat, end: nat, len: nat, fails: bool)
    requires Decode(log).Some? && pos <= end <= len <= |log|
    requires pos < len ==> pos < end && (end < len ==> log[end - 1] == NL)
    requires fails <==> Decode(log[pos..end]).None?
    ensures fails <==> pos < len && (Inside(log, pos) || (Inside(log, len) && end == len))
  {
    SliceDecodesIff(log, pos, end);
    if pos < end < len {
      NotInsideAfterNewline(log, end);
    }
  }

  lemma LineFails(line: seq<Byte>, log: seq<Byte>, pos: nat, end: nat) returns (fails: bool)
    requires pos <= end <= |log| && line == log[pos..end]
    ensures (fails <==> Decode(line).None?) && (fails <==> Decode(log[pos..end]).None?)
  {
    fails := Decode(line).None?;
  }

  lemma LineFailsIff(log: seq<Byte>, pos: nat, len: nat, line: seq<Byte>)
    requires Decode(log).Some? && pos <= pos + |line| <= len <= |log| && line == log[pos..pos + |line|]
    requires line == [] <==> pos == len
    requires line != [] && line[|line| - 1] != NL ==> pos + |line| == len
    ensures Decode(line).None? <==> pos < len && (Inside(log, pos) || (Inside(log, len) && pos + |line| == len))
  {
    var end := pos + |line|;
    LineEnd(log, pos, line);
    var fails := LineFails(line, log, pos, end);
    PieceFailsIff(log, pos, end, len, fails);
  }

  /** In a log of valid UTF-8 a read fails exactly when it starts inside a character, or takes
      everything there is while that ends inside one. */
  lemma ReadFailsIff(log: seq<Byte>, len: nat, pos: nat)
    requires Decode(log).Some? && pos <= len <= |log|
    ensures Decode(ReadLine(log, len, pos)).None? <==>
            pos < len && (Inside(log, pos) || (Inside(log, len) && pos + |ReadLine(log, len, pos)| == len))
  {
    ReadLineAdvances(log, len, pos);
    LineFailsIff(log, pos, len, ReadLine(log, len, pos));
  }

  lemma LineEnd(log: seq<Byte>, pos: nat, line: seq<Byte>)
    requires pos + |line| <= |log| && line == log[pos..pos + |line|]
    ensures line != [] ==> log[pos + |line| - 1] == line[|line| - 1]
  {
  }

  lemma {:induction false} FlattenedDecodes(chunks: seq<seq<Byte>>)
    requires WellCut(chunks)
    ensures Decode(Flatten(chunks)).Some?
  {
    if chunks != [] {
      FlattenedDecodes(chunks[1..]);
      DecodedConcat(chunks[0], Flatten(chunks[1..]));
    }
  }

  /** Some read of the turn, from this position, does not decode. */
  ghost predicate Unreadable(log: seq<Byte>, turn: Turn, pos: nat) {
    exists n :: n in turn.seen && pos <= n <= |log| && Decode(ReadLine(log, n, pos)).None?
  }

  /** The log has, at a read of the turn, a length inside a character. */
  ghost predicate SeenInside(log: seq<Byte>, turn: Turn) {
    exists n :: n in turn.seen && Inside(log, n)
  }

  lemma DeliveredDecodes(before: seq<seq<Byte>>, chunks: seq<seq<Byte>>, rest: seq<Byte>)
    requires WellCut(before) && WellCut(chunks) && Flatten(chunks) == Flatten(before) + rest
    ensures Decode(rest).Some?
  {
    FlattenedDecodes(before);
    FlattenedDecodes(chunks);
    PrefixRest(Flatten(before), Flatten(chunks));
    assert Flatten(chunks)[|Flatten(before)|..] == rest;
  }

  /** When a read fails after others went well from `from` to `pos`, one of these two is inside a
      character: the place where they began, or the end of the log at a read. */
  lemma FailureCause(log: seq<Byte>, turn: Turn, before: seq<seq<Byte>>, chunks: seq<seq<Byte>>, from: nat, pos: nat)
    requires Decode(log).Some? && from <= pos <= |log|
    requires WellCut(before) && WellCut(chunks) && Flatten(chunks) == Flatten(before) + log[from..pos]
    requires Unreadable(log, turn, pos)
    ensures Inside(log, from) || SeenInside(log, turn)
  {
    var n :| n in turn.seen && pos <= n <= |log| && Decode(ReadLine(log, n, pos)).None?;
    ReadFailsIff(log, n, pos);
    DeliveredDecodes(before, chunks, log[from..pos]);
    SliceDecodesIff(log, from, pos);
  }

  /** A log of one accented letter of which the first byte has been written cannot be read yet. */
  lemma HalfWrittenLetterFails(log: seq<Byte>)
    requires log == Encode("\U{E9}")
    ensures Decode(log).Some? && Decode(ReadLine(log, 1, 0)).None?
  {
    DecodeEncoded("\U{E9}");
    EncodeCons('\U{E9}', []);
    assert ['\U{E9}'] + [] == "\U{E9}";
    TailsOfChar('\U{E9}');
    ReadLineAdvances(log, 1, 0);
    ReadFailsIff(log, 1, 0);
  }

  /** The chunks are what the first reads of a turn return when they start at `from`: chunk after chunk,
      each read where the one before ended, and none of them empty. */
  ghost predicate Reads(log: seq<Byte>, seen: seq<nat>, from: nat, chunks: seq<seq<Byte>>) {
    chunks == [] ||
    (var k := |chunks| - 1;
     var pos := from + |Flatten(chunks[..k])|;
     && Reads(log, seen, from, chunks[..k])
     && k < |seen| && pos < seen[k] <= |log|
     && chunks[k] == ReadLine(log, seen[k], pos))
  }

  lemma ReadsAppend(log: seq<Byte>, seen: seq<nat>, from: nat, chunks: seq<seq<Byte>>, line: seq<Byte>, pos: nat)
    requires Reads(log, seen, from, chunks) && |chunks| < |seen| && pos == from + |Flatten(chunks)|
    requires pos < seen[|chunks|] <= |log| && line == ReadLine(log, seen[|chunks|], pos)
    ensures Reads(log, seen, from, chunks + [line])
  {
    assert (chunks + [line])[..|chunks|] == chunks;
  }

  lemma ReadFromEnd(log: seq<Byte>, from: nat, joined: seq<Byte>, pos: nat, len: nat, line: seq<Byte>)
    requires pos == from + |joined| && pos <= |log| && joined == log[from..pos]
    requires pos <= len <= |log| && line == ReadLine(log, len, pos)
    ensures from + |joined + line| <= |log| && joined + line == log[from..from + |joined + line|]
  {
    ReadLineAdvances(log, len, pos);
    SliceJoins(log, from, pos, pos + |line|);
  }

  lemma FlattenBack(chunks: seq<seq<Byte>>)
    requires chunks != []
    ensures Flatten(chunks) == Flatten(chunks[..|chunks| - 1]) + chunks[|chunks| - 1]
  {
    FlattenAppend(chunks[..|chunks| - 1], chunks[|chunks| - 1]);
    assert chunks == chunks[..|chunks| - 1] + [chunks[|chunks| - 1]];
  }

  /** Joined, they are the bytes from where the reads start to where they end. */
  lemma {:induction false} ReadsConserve(log: seq<Byte>, seen: seq<nat>, from: nat, chunks: seq<seq<Byte>>)
    requires Reads(log, seen, from, chunks) && from <= |log|
    ensures from + |Flatten(chunks)| <= |log|
    ensures Flatten(chunks) == log[from..from + |Flatten(chunks)|]
  {
    if chunks != [] {
      var k := |chunks| - 1;
      var front := chunks[..k];
      ReadsConserve(log, seen, from, front);
      FlattenBack(chunks);
      ReadFromEnd(log, from, Flatten(front), from + |Flatten(front)|, seen[k], chunks[k]);
    }
  }

  /** How a turn that reads `chunks` from `from` and stands at `cursor` ends: at a read that finds
      nothing, at one that cannot be decoded, or when no read is left. */
  ghost predicate EndsAs(log: seq<Byte>, turn: Turn, from: nat, chunks: seq<seq<Byte>>, outcome: Outcome, cursor: nat) {
    var k := |chunks|;
    && Reads(log, turn.seen, from, chunks)
    && cursor == from + |Flatten(chunks)|
    && match outcome
       case Polled => k < |turn.seen| && cursor == turn.seen[k]
       case Failed => k < |turn.seen| && cursor <= turn.seen[k] <= |log| && Decode(ReadLine(log, turn.seen[k], cursor)).None?
       case Reading => k == |turn.seen|
  }

  /** A turn has read `read` so far, and its reader stands at `cursor`. */
  ghost predicate HasRead(log: seq<Byte>, turn: Turn, from: nat, read: seq<seq<Byte>>, cursor: nat) {
    WellCut(read) && Reads(log, turn.seen, from, read) && cursor == from + |Flatten(read)|
  }

  /** The next read finds nothing, or a chunk within the log. */
  lemma NextRead(log: seq<Byte>, len: nat, cursor: nat, line: seq<Byte>)
    requires cursor <= len <= |log| && line == ReadLine(log, len, cursor) && Decode(line).Some?
    ensures cursor + |line| <= len && (line == [] <==> cursor == len) && (line != [] ==> IsChunk(line))
  {
    ReadLineAdvances(log, len, cursor);
  }

  lemma ReadOn(log: seq<Byte>, turn: Turn, from: nat, read: seq<seq<Byte>>, cursor: nat, line: seq<Byte>)
    requires HasRead(log, turn, from, read, cursor) && IsChunk(line)
    requires |read| < |turn.seen| && cursor < turn.seen[|read|] <= |log| && line == ReadLine(log, turn.seen[|read|], cursor)
    ensures HasRead(log, turn, from, read + [line], cursor + |line|)
  {
    ReadsAppend(log, turn.seen, from, read, line, cursor);
    FlattenAppend(read, line);
  }

  /** What a turn adds to the chunks is what it has read, and it fails only for the two reasons. */
  lemma TurnDelivers(log: seq<Byte>, turn: Turn, before: seq<seq<Byte>>, read: seq<seq<Byte>>, from: nat,
                     outcome: Outcome, cursor: nat)
    requires WellCut(before) && WellCut(read) && from <= |log|
    requires EndsAs(log, turn, from, read, outcome, cursor)
    ensures from <= cursor <= |log| && Flatten(before + read) == Flatten(before) + log[from..cursor]
    ensures outcome.Failed? && Decode(log).Some? ==> Inside(log, from) || SeenInside(log, turn)
  {
    ReadsConserve(log, turn.seen, from, read);
    FlattenConcat(before, read);
    if outcome.Failed? && Decode(log).Some? {
      assert turn.seen[|read|] in turn.seen;
      FailureCause(log, turn, before, before + read, from, cursor);
    }
  }

  /** `Reading` is a turn observed before its last read, `Failed` one that met invalid UTF-8. */
  datatype Outcome = Polled | Reading | Failed

  class Follower {
    var position: nat
    var delivered: seq<seq<Byte>>

    /** Following starts at the end of the log. */
    constructor (length: nat)
      ensures position == length && delivered == []
    {
      position, delivered := length, [];
    }

    /** One turn delivers exactly the bytes from where it starts, which is the front of the log when
        the log has become shorter, to where its reader stands. When there is more than that it reads
        line after line until a read finds nothing or cannot be decoded; only a turn that is observed
        before its last read is still reading. */
    method Poll(log: seq<Byte>, turn: Turn) returns (outcome: Outcome, cursor: nat)
      requires NonDecreasing(Lengths(turn)) && Within(turn, |log|)
      requires WellCut(delivered)
      modifies this
      ensures var from := if turn.measured < old(position) then 0 else old(position);
              && from <= cursor <= Last(turn) <= |log|
              && Flatten(delivered) == Flatten(old(delivered)) + log[from..cursor]
              && old(delivered) <= delivered
              && (if turn.measured > from
                  then EndsAs(log, turn, from, delivered[|old(delivered)|..], outcome, cursor)
                  else outcome.Polled? && delivered == old(delivered))
              && (outcome.Failed? && Decode(log).Some? ==> Inside(log, from) || SeenInside(log, turn))
      ensures WellCut(delivered)
      ensures outcome.Polled? ==> position == cursor && cursor >= turn.measured
    {
      ghost var before := delivered;
      LastWithin(turn, |log|);
      if turn.measured < position {
        position := 0;
      }
      cursor := position;
      if turn.measured > position {
        ghost var read;
        outcome, cursor, read := ReadLines(log, turn);
        assert delivered[|before|..] == read;
        TurnDelivers(log, turn, before, read, position, outcome, cursor);
        if outcome.Polled? {
          position := cursor;
        }
      } else {
        outcome := Polled;
        assert log[cursor..cursor] == [] && delivered[|before|..] == [];
      }
    }

    /** The inner loop: lines are read and delivered until a read finds nothing. */
    method ReadLines(log: seq<Byte>, turn: Turn) returns (outcome: Outcome, cursor: nat, ghost read: seq<seq<Byte>>)
      requires NonDecreasing(Lengths(turn)) && Within(turn, |log|) && position < turn.measured
      modifies `delivered
      ensures position <= cursor <= Last(turn)
      ensures delivered == old(delivered) + read && WellCut(read)
      ensures EndsAs(log, turn, position, read, outcome, cursor)
      ensures outcome.Polled? ==> cursor >= turn.measured
    {
      read := [];
      cursor := position;
      for k := 0 to |turn.seen|
        invariant position <= cursor <= Lengths(turn)[k]
        invariant k == 0 ==> cursor < turn.measured
        invariant |read| == k && HasRead(log, turn, position, read, cursor)
        invariant delivered == old(delivered) + read
      {
        LengthsAscend(turn, k);
        var line := ReadLine(log, turn.seen[k], cursor);
        if Decode(line).None? {
          return Failed, cursor, read;
        }
        NextRead(log, turn.seen[k], cursor, line);
        if line == [] {
          return Polled, cursor, read;
        }
        ReadOn(log, turn, position, read, cursor, line);
        DeliverOne(old(delivered), read, line);
        delivered := delivered + [line];
        read := read + [line];
        cursor := cursor + |line|;
      }
      return Reading, cursor, read;
    }

    /** One turn of following a log that only grows. */
    method FollowTurn(log: seq<Byte>, start: nat, turn: Turn)
      returns (outcome: Outcome, cursor: nat, ghost from: nat, ghost kept: nat)
      requires NonDecreasing(Lengths(turn)) && Within(turn, |log|)
      requires start <= position <= turn.measured
      requires Flatten(delivered) == log[start..position] && WellCut(delivered)
      modifies this
      ensures from == old(position) <= cursor <= Last(turn) <= |log|
      ensures Flatten(delivered) == log[start..cursor] && WellCut(delivered)
      ensures outcome.Polled? ==> position == cursor && cursor >= turn.measured
      ensures !outcome.Polled? ==> StoppedBy(log, turn, start, from, delivered, kept, outcome, cursor)
    {
      ghost var found := delivered;
      from, kept := position, |found|;
      outcome, cursor := Poll(log, turn);
      SliceJoins(log, start, from, cursor);
      if outcome != Polled {
        assert delivered[..kept] == found;
        FollowStops(log, turn, start, from, delivered, delivered[kept..], outcome, cursor);
      }
    }

    /** Following a log that only grows, at whatever moment it is observed: the chunks delivered are,
        joined, the bytes from the starting position to the reader, none lost or repeated. It stops
        before its last turn only when a read fails or the turn is cut short; `last` is the turn that
        stops it, `from` its start and `kept` the number of chunks it found. */
    method Follow(log: seq<Byte>, start: nat, turns: seq<Turn>)
      returns (outcome: Outcome, cursor: nat, ghost last: nat, ghost from: nat, ghost kept: nat)
      requires OnlyGrows(start, turns, |log|)
      requires position == start && delivered == []
      modifies this
      ensures start <= cursor <= |log|
      ensures Flatten(delivered) == log[start..cursor]
      ensures WellCut(delivered)
      ensures outcome.Polled? ==> cursor == position && (turns != [] ==> cursor >= turns[|turns| - 1].measured)
      ensures !outcome.Polled? ==>
                && last < |turns| && (last > 0 ==> from >= turns[last - 1].measured)
                && StoppedBy(log, turns[last], start, from, delivered, kept, outcome, cursor)
    {
      outcome, cursor, last, from, kept := Polled, position, 0, start, 0;
      for i := 0 to |turns|
        invariant start <= cursor == position <= Before(start, turns, i) && cursor <= |log| && outcome.Polled?
        invariant Flatten(delivered) == log[start..cursor] && WellCut(delivered)
        invariant i > 0 ==> cursor >= turns[i - 1].measured
      {
        assert TurnFits(start, turns, i, |log|);
        last := i;
        outcome, cursor, from, kept := FollowTurn(log, start, turns[i]);
        if outcome != Polled {
          return;
        }
      }
    }
  }

  /** The turn, which found `kept` chunks and its reader at `from`, stopped the follower: it had
      something to read, and its reads failed or were cut short. On a log of valid UTF-8 a read fails
      only if following started inside a character or the log ended inside one at some read. */
  ghost predicate StoppedBy(log: seq<Byte>, turn: Turn, start: nat, from: nat, chunks: seq<seq<Byte>>, kept: nat,
                            outcome: Outcome, cursor: nat) {
    && start <= from <= cursor && from < turn.measured && from <= |log|
    && kept <= |chunks| && Flatten(chunks[..kept]) == log[start..from]
    && EndsAs(log, turn, from, chunks[kept..], outcome, cursor)
    && (outcome.Failed? && Decode(log).Some? ==> Inside(log, start) || SeenInside(log, turn))
  }

  /** A read that fails has one of two reasons, from where following started on. */
  lemma FollowStops(log: seq<Byte>, turn: Turn, start: nat, from: nat, chunks: seq<seq<Byte>>, read: seq<seq<Byte>>,
                    outcome: Outcome, cursor: nat)
    requires start <= cursor <= |log| && WellCut(chunks) && Flatten(chunks) == log[start..cursor]
    requires EndsAs(log, turn, from, read, outcome, cursor)
    ensures outcome.Failed? && Decode(log).Some? ==> Inside(log, start) || SeenInside(log, turn)
  {
    if outcome.Failed? && Decode(log).Some? {
      assert turn.seen[|read|] in turn.seen;
      FailureCause(log, turn, [], chunks, start, cursor);
    }
  }

  lemma SliceJoins(log: seq<Byte>, start: nat, from: nat, cursor: nat)
    requires start <= from <= cursor <= |log|
    ensures log[start..cursor] == log[start..from] + log[from..cursor]
  {
  }

  lemma LastWithin(turn: Turn, latest: nat)
    requires NonDecreasing(Lengths(turn)) && Within(turn, latest)
    ensures turn.measured <= Last(turn) <= latest
  {
    assert Lengths(turn)[0] == turn.measured;
  }
}
