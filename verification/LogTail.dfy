/** The log views of `bitloops daemon logs`: the backward block scan for the last lines, and the
    bounded queue for the last lines that pass a level filter. Both are proved to show the last
    lines of the decoded log. */
module LogTail {
  import opened Options
  import opened Lines
  import opened Utf8
  import opened Text
  import opened Sorting

  datatype LogError = InvalidUtf8

  type View = Result<seq<string>, LogError>

  function StripLine(piece: string): string {
    StripEnding(piece, '\n', '\r')
  }

  /** `str::lines`. */
  function TextLines(t: string): seq<string> {
    Map(Chunks(t, '\n'), StripLine)
  }

  /** Lines, each with a newline behind it or, where `crlf` says so, a carriage return and a newline. */
  function Printed(lines: seq<string>, crlf: seq<bool>): string
    requires |crlf| == |lines|
    decreases lines
  {
    if lines == [] then [] else lines[0] + (if crlf[0] then "\r\n" else "\n") + Printed(lines[1..], crlf[1..])
  }

  predicate IsLine(line: string, crlf: bool) {
    '\n' !in line && (crlf || line == [] || line[|line| - 1] != '\r')
  }

  lemma LineInFront(line: string, crlf: bool, rest: string)
    requires IsLine(line, crlf)
    ensures TextLines(line + (if crlf then "\r\n" else "\n") + rest) == [line] + TextLines(rest)
  {
    var piece := line + if crlf then "\r\n" else "\n";
    OnePiece(piece, '\n');
    ChunksSplit(piece, rest, '\n');
    StripsItsEnding(line, crlf, piece);
    MapFront(piece, Chunks(rest, '\n'), StripLine);
  }

  lemma StripsItsEnding(line: string, crlf: bool, piece: string)
    requires IsLine(line, crlf) && piece == line + if crlf then "\r\n" else "\n"
    ensures StripLine(piece) == line
  {
    assert crlf ==> piece[..|piece| - 2] == line;
    assert !crlf ==> piece[..|piece| - 1] == line;
  }

  /** Printed lines are read back, with an unfinished one behind them if there is any. */
  lemma {:induction false} PrintedLinesRead(lines: seq<string>, crlf: seq<bool>, tail: string)
    requires |crlf| == |lines| && forall i :: 0 <= i < |lines| ==> IsLine(lines[i], crlf[i])
    requires '\n' !in tail
    ensures TextLines(Printed(lines, crlf) + tail) == lines + if tail == [] then [] else [tail]
    decreases lines
  {
    if lines == [] {
      assert [] + tail == tail;
      if tail != [] {
        OnePiece(tail, '\n');
      }
    } else {
      var rest := Printed(lines[1..], crlf[1..]);
      PrintedLinesRead(lines[1..], crlf[1..], tail);
      LineInFront(lines[0], crlf[0], rest + tail);
      var ending := if crlf[0] then "\r\n" else "\n";
      assert lines[0] + ending + rest + tail == lines[0] + ending + (rest + tail);
      assert lines == [lines[0]] + lines[1..];
    }
  }

  // ---- The backward scan ----

  /** The newlines from `pos` on, without the one that may end the file. */
  ghost function NewlinesFrom(file: seq<Byte>, pos: nat): nat {
    if pos < |file| - 1 then Count(file[pos..|file| - 1], NL) else 0
  }

  lemma NewlineStep(file: seq<Byte>, pos: nat)
    requires pos < |file|
    ensures NewlinesFrom(file, pos) ==
            NewlinesFrom(file, pos + 1) + if file[pos] == NL && pos < |file| - 1 then 1 else 0
  {
    if pos < |file| - 1 {
      var tail := file[pos..|file| - 1];
      assert tail[1..] == file[pos + 1..|file| - 1];
    }
  }

  /** The offset at which the last `lines` lines start. The caller never asks for zero lines. */
  method FindTailStartOffset(file: seq<Byte>, lines: nat, blockSize: nat) returns (start: nat)
    requires lines >= 1 && blockSize >= 1
    ensures start <= |file|
    ensures Chunks(file[start..], NL) == LastN(Chunks(file, NL), lines)
  {
    var fileLen := |file|;
    if fileLen == 0 {
      return 0;
    }
    var remaining, needed: nat := fileLen, lines;
    var skipTrailingNewline := file[fileLen - 1] == NL;
    var buffer := new Byte[blockSize];

    while remaining > 0
      invariant 0 <= remaining <= fileLen
      invariant needed >= 1 && needed + NewlinesFrom(file, remaining) == lines
      invariant skipTrailingNewline == (file[fileLen - 1] == NL && remaining == fileLen)
    {
      var readSize := if remaining < blockSize then remaining else blockSize;
      remaining := remaining - readSize;
      forall i | 0 <= i < readSize { buffer[i] := file[remaining + i]; }

      var idx := readSize;
      while idx > 0
        invariant 0 <= idx <= readSize
        invariant forall i :: 0 <= i < readSize ==> buffer[i] == file[remaining + i]
        invariant needed >= 1 && needed + NewlinesFrom(file, remaining + idx) == lines
        invariant skipTrailingNewline == (file[fileLen - 1] == NL && remaining + idx == fileLen)
      {
        idx := idx - 1;
        var newlinePos := remaining + idx;
        NewlineStep(file, newlinePos);
        if buffer[idx] != NL {
          continue;
        }
        if skipTrailingNewline && newlinePos == fileLen - 1 {
          skipTrailingNewline := false;
          continue;
        }
        needed := needed - 1;
        if needed == 0 {
          TailFound(file, newlinePos, lines);
          return newlinePos + 1;
        }
      }
    }
    WholeFile(file, lines);
    return 0;
  }

  lemma TailFound(file: seq<Byte>, pos: nat, lines: nat)
    requires pos < |file| - 1 && file[pos] == NL && NewlinesFrom(file, pos) == lines
    ensures Chunks(file[pos + 1..], NL) == LastN(Chunks(file, NL), lines)
  {
    var before, tail := file[..pos + 1], file[pos + 1..];
    assert file == before + tail;
    ChunksSplit(before, tail, NL);
    ChunkCount(tail, NL);
    assert tail[..|tail| - 1] == file[pos..|file| - 1][1..];
  }

  lemma WholeFile(file: seq<Byte>, lines: nat)
    requires file != [] && NewlinesFrom(file, 0) < lines
    ensures Chunks(file[0..], NL) == LastN(Chunks(file, NL), lines)
  {
    ChunkCount(file, NL);
    assert file[0..|file| - 1] == file[..|file| - 1] && file[0..] == file;
  }

  method TailLogFile(file: seq<Byte>, lines: nat, blockSize: nat) returns (r: View)
    requires blockSize >= 1
    ensures r == TailView(file, lines)
  {
    if lines == 0 {
      return Ok([]);
    }
    var start := FindTailStartOffset(file, lines, blockSize);
    var bytes := file[start..];
    FlattenChunks(bytes, NL);
    match Decode(bytes)
    case None => return Err(InvalidUtf8);
    case Some(content) => return Ok(TextLines(content));
  }

  /** What the plain view shows of any file: its last pieces, if they decode. */
  function TailView(file: seq<Byte>, lines: nat): View {
    if lines == 0 then Ok([])
    else match Decode(Flatten(LastN(Chunks(file, NL), lines)))
      case None => Err(InvalidUtf8)
      case Some(content) => Ok(TextLines(content))
  }

  // ---- The filtered view ----

  /** A queue of at most `lines` lines that drops its oldest one. */
  method PushTailLine(tail: seq<string>, line: string, lines: nat) returns (pushed: seq<string>)
    requires 1 <= lines && |tail| <= lines
    ensures pushed == LastN(tail + [line], lines) && |pushed| <= lines
  {
    pushed := tail;
    if |pushed| == lines {
      pushed := pushed[1..];
    }
    pushed := pushed + [line];
  }

  /** The lines a buffered reader yields, or nothing if one of them does not decode. */
  function DecodedLines(pieces: seq<seq<Byte>>): Option<seq<string>> {
    if pieces == [] then Some([])
    else
      var front := DecodedLines(pieces[..|pieces| - 1]);
      var last := Decode(pieces[|pieces| - 1]);
      if front.None? || last.None? then None else Some(front.value + [StripLine(last.value)])
  }

  method TailLogFileAfterFilter(file: seq<Byte>, lines: nat, emit: string -> bool) returns (r: View)
    ensures r == FilteredView(file, lines, emit)
  {
    if lines == 0 {
      return Ok([]);
    }
    var pieces := Chunks(file, NL);
    var tail: seq<string> := [];
    ghost var read: seq<string> := [];
    for i := 0 to |pieces|
      invariant DecodedLines(pieces[..i]) == Some(read)
      invariant tail == LastN(Filter(read, emit), lines)
    {
      DecodedStep(pieces, i);
      var decoded := Decode(pieces[i]);
      if decoded.None? {
        UndecodedLine(pieces, i + 1);
        return Err(InvalidUtf8);
      }
      var line := StripLine(decoded.value);
      KeepOneMore(read, line, lines, emit);
      read := read + [line];
      if emit(line) {
        tail := PushTailLine(tail, line, lines);
      }
    }
    assert pieces[..|pieces|] == pieces;
    return Ok(tail);
  }

  lemma KeepOneMore(read: seq<string>, line: string, lines: nat, emit: string -> bool)
    requires lines >= 1
    ensures var kept := LastN(Filter(read, emit), lines);
            LastN(Filter(read + [line], emit), lines) == if emit(line) then LastN(kept + [line], lines) else kept
  {
    FilterConcat(read, [line], emit);
    assert Filter([line], emit) == if emit(line) then [line] else [];
  }

  lemma DecodedStep(pieces: seq<seq<Byte>>, i: nat)
    requires i < |pieces|
    ensures DecodedLines(pieces[..i + 1]) ==
            if DecodedLines(pieces[..i]).None? || Decode(pieces[i]).None? then None
            else Some(DecodedLines(pieces[..i]).value + [StripLine(Decode(pieces[i]).value)])
  {
    assert pieces[..i + 1][..i] == pieces[..i];
  }

  lemma {:induction false} UndecodedLine(pieces: seq<seq<Byte>>, k: nat)
    requires k <= |pieces| && DecodedLines(pieces[..k]).None?
    ensures DecodedLines(pieces).None?
  {
    if k < |pieces| {
      var front := pieces[..|pieces| - 1];
      assert front[..k] == pieces[..k];
      UndecodedLine(front, k);
    } else {
      assert pieces[..k] == pieces;
    }
  }

  /** What the filtered view shows of any file. */
  function FilteredView(file: seq<Byte>, lines: nat, emit: string -> bool): View {
    if lines == 0 then Ok([]) else LastKept(DecodedLines(Chunks(file, NL)), lines, emit)
  }

  function LastKept(all: Option<seq<string>>, lines: nat, emit: string -> bool): View {
    if all.None? then Err(InvalidUtf8) else Ok(LastN(Filter(all.value, emit), lines))
  }

  // ---- Levels ----

  datatype Level = Debug | Info | Warn | Error

  function ParseLogLevel(value: string): Option<Level> {
    var v := Lower(Trim(value));
    if v == "debug" then Some(Debug)
    else if v == "info" then Some(Info)
    else if v == "warn" || v == "warning" then Some(Warn)
    else if v == "error" then Some(Error)
    else None
  }

  /** The names of a level, in lower case. */
  predicate Names(name: string, level: Level) {
    match level
    case Debug => name == "debug"
    case Info => name == "info"
    case Warn => name == "warn" || name == "warning"
    case Error => name == "error"
  }

  /** A level is recognised by its names in any case and with any whitespace around, and by nothing else. */
  lemma LevelIsRecognised(before: string, name: string, after: string, level: Level)
    requires AllWhitespace(before) && AllWhitespace(after) && IsTrimmed(name)
    ensures ParseLogLevel(before + name + after) == Some(level) <==> Names(Lower(name), level)
  {
    TrimFramed(before, name, after);
  }

  /** `levelOf` is the JSON reader: the string under "level" if the line is an object with one. */
  predicate ShouldEmit(line: string, levels: seq<Level>, levelOf: string -> Option<string>) {
    levels == [] ||
    match levelOf(line)
    case None => false
    case Some(text) => ParseLogLevel(text).Some? && ParseLogLevel(text).value in levels
  }

  function Emitter(levels: seq<Level>, levelOf: string -> Option<string>): string -> bool {
    (line: string) => ShouldEmit(line, levels, levelOf)
  }

  /** The line is wanted: the string under "level" names a wanted level, in any case and with any
      whitespace around. */
  ghost predicate Wanted(line: string, levels: seq<Level>, levelOf: string -> Option<string>) {
    exists level, before, name, after ::
      && level in levels && Names(Lower(name), level)
      && AllWhitespace(before) && AllWhitespace(after) && IsTrimmed(name)
      && levelOf(line) == Some(before + name + after)
  }

  /** With no levels every line is emitted, and otherwise exactly the wanted ones. */
  lemma EmittedIffWanted(line: string, levels: seq<Level>, levelOf: string -> Option<string>)
    ensures ShouldEmit(line, levels, levelOf) <==> levels == [] || Wanted(line, levels, levelOf)
  {
    if levels != [] && ShouldEmit(line, levels, levelOf) {
      var text := levelOf(line).value;
      var name, level := Trim(text), ParseLogLevel(text).value;
      var before, after := TrimDrops(text);
      TrimIsTrimmed(text);
      LevelIsRecognised(before, name, after, level);
    }
    if Wanted(line, levels, levelOf) {
      var level, before, name, after :|
        && level in levels && Names(Lower(name), level)
        && AllWhitespace(before) && AllWhitespace(after) && IsTrimmed(name)
        && levelOf(line) == Some(before + name + after);
      LevelIsRecognised(before, name, after, level);
    }
  }

  ghost function WantedCount(all: seq<string>, levels: seq<Level>, levelOf: string -> Option<string>): nat {
    if all == [] then 0
    else (if Wanted(all[0], levels, levelOf) then 1 else 0) + WantedCount(all[1..], levels, levelOf)
  }

  /** A wanted line with fewer than `lines` wanted ones behind it. */
  ghost predicate IsLastWanted(i: nat, all: seq<string>, lines: nat, levels: seq<Level>, levelOf: string -> Option<string>)
    requires i < |all|
  {
    Wanted(all[i], levels, levelOf) && WantedCount(all[i + 1..], levels, levelOf) < lines
  }

  /** `shown` is made of the lines at `places`, in their order. */
  predicate StandAt(shown: seq<string>, places: seq<nat>, all: seq<string>) {
    && |places| == |shown|
    && (forall j, k :: 0 <= j < k < |places| ==> places[j] < places[k])
    && (forall k :: 0 <= k < |places| ==> places[k] < |all| && shown[k] == all[places[k]])
  }

  /** The lines shown are exactly those. */
  ghost predicate AreLastWanted(places: seq<nat>, shown: seq<string>, all: seq<string>, lines: nat,
                                levels: seq<Level>, levelOf: string -> Option<string>) {
    && StandAt(shown, places, all)
    && forall i :: 0 <= i < |all| ==> (i in places <==> IsLastWanted(i, all, lines, levels, levelOf))
  }

  /** The view shows exactly the last wanted lines, in their order. */
  ghost predicate ShowsLastWanted(shown: seq<string>, all: seq<string>, lines: nat,
                                  levels: seq<Level>, levelOf: string -> Option<string>) {
    exists places :: AreLastWanted(places, shown, all, lines, levels, levelOf)
  }

  function Later(places: seq<nat>): (moved: seq<nat>)
    ensures |moved| == |places| && forall k :: 0 <= k < |places| ==> moved[k] == places[k] + 1
  {
    seq(|places|, k requires 0 <= k < |places| => places[k] + 1)
  }

  lemma LaterMembers(places: seq<nat>, i: nat)
    ensures i in Later(places) <==> i > 0 && i - 1 in places
  {
    if i > 0 && i - 1 in places {
      var k :| 0 <= k < |places| && places[k] == i - 1;
      assert Later(places)[k] == i;
    }
  }

  lemma LastWantedLater(i: nat, all: seq<string>, lines: nat, levels: seq<Level>, levelOf: string -> Option<string>)
    requires 0 < i < |all|
    ensures IsLastWanted(i, all, lines, levels, levelOf) <==> IsLastWanted(i - 1, all[1..], lines, levels, levelOf)
  {
    assert all[1..][i - 1 + 1..] == all[i + 1..];
  }

  lemma StandLater(shown: seq<string>, places: seq<nat>, all: seq<string>)
    requires all != [] && StandAt(shown, places, all[1..])
    ensures StandAt(shown, Later(places), all)
    ensures StandAt([all[0]] + shown, [0] + Later(places), all)
  {
  }

  lemma ZeroInFront(places: seq<nat>, i: nat)
    ensures i in [0] + Later(places) <==> i == 0 || i - 1 in places
    ensures i in Later(places) <==> i > 0 && i - 1 in places
  {
    LaterMembers(places, i);
  }

  /** A line in front moves the places, and adds its own if it is one of those shown. */
  lemma OneLineInFront(places: seq<nat>, shown: seq<string>, all: seq<string>, lines: nat,
                       levels: seq<Level>, levelOf: string -> Option<string>, first: bool, moved: seq<nat>)
    requires all != [] && AreLastWanted(places, shown, all[1..], lines, levels, levelOf)
    requires first == IsLastWanted(0, all, lines, levels, levelOf)
    requires moved == if first then [0] + Later(places) else Later(places)
    ensures AreLastWanted(moved, if first then [all[0]] + shown else shown, all, lines, levels, levelOf)
  {
    StandLater(shown, places, all);
    forall i | 0 <= i < |all| ensures i in moved <==> IsLastWanted(i, all, lines, levels, levelOf) {
      ZeroInFront(places, i);
      if i > 0 {
        LastWantedLater(i, all, lines, levels, levelOf);
      }
    }
  }

  lemma LastWithOneInFront<T>(x: T, kept: seq<T>, n: nat)
    ensures LastN([x] + kept, n) == if |kept| < n then [x] + LastN(kept, n) else LastN(kept, n)
  {
  }

  lemma KeepOneInFront(all: seq<string>, kept: seq<string>, lines: nat, levels: seq<Level>,
                       levelOf: string -> Option<string>, first: bool)
    requires all != [] && levels != [] && kept == Filter(all[1..], Emitter(levels, levelOf))
    requires |kept| == WantedCount(all[1..], levels, levelOf) && first == IsLastWanted(0, all, lines, levels, levelOf)
    ensures var longer := Filter(all, Emitter(levels, levelOf));
            && |longer| == WantedCount(all, levels, levelOf)
            && LastN(longer, lines) == if first then [all[0]] + LastN(kept, lines) else LastN(kept, lines)
  {
    assert all[0 + 1..] == all[1..];
    EmittedIffWanted(all[0], levels, levelOf);
    LastWithOneInFront(all[0], kept, lines);
  }

  lemma {:induction false} FilterShowsWanted(all: seq<string>, lines: nat, levels: seq<Level>,
                                             levelOf: string -> Option<string>) returns (places: seq<nat>)
    requires levels != []
    ensures var kept := Filter(all, Emitter(levels, levelOf));
            && |kept| == WantedCount(all, levels, levelOf)
            && AreLastWanted(places, LastN(kept, lines), all, lines, levels, levelOf)
  {
    if all == [] {
      places := [];
    } else {
      var rest := FilterShowsWanted(all[1..], lines, levels, levelOf);
      var kept, shown := KeptBehind(all, lines, levels, levelOf);
      var first := IsLastWanted(0, all, lines, levels, levelOf);
      places := if first then [0] + Later(rest) else Later(rest);
      OneLineInFront(rest, shown, all, lines, levels, levelOf, first, places);
      KeepOneInFront(all, kept, lines, levels, levelOf, first);
    }
  }

  lemma KeptBehind(all: seq<string>, lines: nat, levels: seq<Level>, levelOf: string -> Option<string>)
    returns (kept: seq<string>, shown: seq<string>)
    requires all != []
    ensures kept == Filter(all[1..], Emitter(levels, levelOf)) && shown == LastN(kept, lines)
  {
    kept := Filter(all[1..], Emitter(levels, levelOf));
    shown := LastN(kept, lines);
  }

  method ReadLogView(file: seq<Byte>, lines: nat, levels: seq<Level>, levelOf: string -> Option<string>,
                     blockSize: nat) returns (r: View)
    requires blockSize >= 1
    ensures r == if levels == [] then TailView(file, lines) else FilteredView(file, lines, Emitter(levels, levelOf))
    ensures forall t :: file == Encode(t) ==> r == Ok(LastN(Filter(TextLines(t), Emitter(levels, levelOf)), lines))
    ensures forall t :: file == Encode(t) ==>
              if levels == [] then r == Ok(LastN(TextLines(t), lines))
              else r.Ok? && ShowsLastWanted(r.value, TextLines(t), lines, levels, levelOf)
  {
    if levels == [] {
      r := TailLogFile(file, lines, blockSize);
    } else {
      r := TailLogFileAfterFilter(file, lines, Emitter(levels, levelOf));
    }
    forall t | file == Encode(t)
      ensures r == Ok(LastN(Filter(TextLines(t), Emitter(levels, levelOf)), lines))
      ensures if levels == [] then r == Ok(LastN(TextLines(t), lines))
              else ShowsLastWanted(r.value, TextLines(t), lines, levels, levelOf)
    {
      ValidLogView(t, lines, levels, levelOf);
      if levels == [] {
        ValidTail(t, lines);
      } else {
        var places := FilterShowsWanted(TextLines(t), lines, levels, levelOf);
      }
    }
  }

  // ---- Both views of a valid log ----

  lemma EncodeOne(c: char)
    ensures Encode([c]) == EncodeChar(c)
  {
    assert Encode([c]) == EncodeChar(c) + Encode([c][1..]);
  }

  lemma EncodeFirstPiece(c: char, pieces: seq<string>)
    ensures Map(JoinFirst([c], pieces), Encode) == JoinFirst(EncodeChar(c), Map(pieces, Encode))
  {
    EncodeOne(c);
    if pieces != [] {
      EncodeFirst(c, pieces[0], pieces[1..]);
      assert pieces == [pieces[0]] + pieces[1..];
    }
  }

  lemma EncodeFirst(c: char, first: string, rest: seq<string>)
    ensures Map([[c] + first] + rest, Encode) == [EncodeChar(c) + Encode(first)] + Map(rest, Encode)
    ensures Map([first] + rest, Encode) == [Encode(first)] + Map(rest, Encode)
  {
    EncodeOne(c);
    EncodeConcat([c], first);
    MapFront([c] + first, rest, Encode);
    MapFront(first, rest, Encode);
  }

  lemma ChunksEncodedNewline(t: string)
    requires Chunks(Encode(t), NL) == Map(Chunks(t, '\n'), Encode)
    ensures Chunks(Encode(['\n'] + t), NL) == Map(Chunks(['\n'] + t, '\n'), Encode)
  {
    EncodeCons('\n', t);
    EncodeOne('\n');
    AsciiByteInChar('\n', NL);
    NewlineFirst(Encode(t), NL);
    NewlineFirst(t, '\n');
    MapFront(['\n'], Chunks(t, '\n'), Encode);
  }

  lemma ChunksEncodedPlain(c: char, t: string)
    requires c != '\n' && Chunks(Encode(t), NL) == Map(Chunks(t, '\n'), Encode)
    ensures Chunks(Encode([c] + t), NL) == Map(Chunks([c] + t, '\n'), Encode)
  {
    EncodeCons(c, t);
    AsciiByteInChar(c, NL);
    PrependPlain(EncodeChar(c), Encode(t), NL);
    PrependPlain([c], t, '\n');
    EncodeFirstPiece(c, Chunks(t, '\n'));
  }

  lemma {:induction false} ChunksEncoded(t: string)
    ensures Chunks(Encode(t), NL) == Map(Chunks(t, '\n'), Encode)
  {
    if t != [] {
      ChunksEncoded(t[1..]);
      assert t == [t[0]] + t[1..];
      if t[0] == '\n' {
        ChunksEncodedNewline(t[1..]);
      } else {
        ChunksEncodedPlain(t[0], t[1..]);
      }
    }
  }

  lemma {:induction false} FlattenEncoded(pieces: seq<string>)
    ensures Flatten(Map(pieces, Encode)) == Encode(Flatten(pieces))
  {
    if pieces != [] {
      FlattenEncoded(pieces[1..]);
      assert Map(pieces, Encode)[1..] == Map(pieces[1..], Encode);
      EncodeConcat(pieces[0], Flatten(pieces[1..]));
    }
  }

  lemma TailOfEncoded(t: string, lines: nat)
    ensures Flatten(LastN(Chunks(Encode(t), NL), lines)) == Encode(Flatten(LastN(Chunks(t, '\n'), lines)))
  {
    var pieces := Chunks(t, '\n');
    ChunksEncoded(t);
    MapLastN(pieces, lines, Encode);
    FlattenEncoded(LastN(pieces, lines));
  }

  lemma LinesOfTail(t: string, lines: nat)
    ensures TextLines(Flatten(LastN(Chunks(t, '\n'), lines))) == LastN(TextLines(t), lines)
  {
    ChunksOfLastN(t, '\n', lines);
    MapLastN(Chunks(t, '\n'), lines, StripLine);
  }

  /** The scan of a valid log always decodes, to exactly its last lines. */
  lemma ValidTail(t: string, lines: nat)
    ensures TailView(Encode(t), lines) == Ok(LastN(TextLines(t), lines))
  {
    var kept := Flatten(LastN(Chunks(t, '\n'), lines));
    TailOfEncoded(t, lines);
    DecodeEncoded(kept);
    LinesOfTail(t, lines);
  }

  lemma DecodedAppend(pieces: seq<seq<Byte>>, last: seq<Byte>, front: seq<string>, text: string)
    requires DecodedLines(pieces) == Some(front) && Decode(last) == Some(text)
    ensures DecodedLines(pieces + [last]) == Some(front + [StripLine(text)])
  {
    assert (pieces + [last])[..|pieces|] == pieces;
  }

  lemma {:induction false} DecodedEncodedLines(pieces: seq<string>)
    ensures DecodedLines(Map(pieces, Encode)) == Some(Map(pieces, StripLine))
  {
    if pieces != [] {
      var front, last := pieces[..|pieces| - 1], pieces[|pieces| - 1];
      DecodedEncodedLines(front);
      DecodeEncoded(last);
      DecodedAppend(Map(front, Encode), Encode(last), Map(front, StripLine), last);
      MapBack(pieces, Encode);
      MapBack(pieces, StripLine);
    }
  }

  lemma ValidLines(t: string)
    ensures DecodedLines(Chunks(Encode(t), NL)) == Some(TextLines(t))
  {
    ChunksEncoded(t);
    DecodedEncodedLines(Chunks(t, '\n'));
  }

  /** The queue over a valid log holds exactly the last lines of the filtered log. */
  lemma ValidFilteredTail(t: string, lines: nat, emit: string -> bool)
    ensures FilteredView(Encode(t), lines, emit) == Ok(LastN(Filter(TextLines(t), emit), lines))
  {
    ValidLines(t);
    var all := TextLines(t);
    assert lines == 0 ==> LastN(Filter(all, emit), 0) == [];
    assert LastKept(Some(all), lines, emit) == Ok(LastN(Filter(all, emit), lines));
  }

  lemma {:induction false} DecodedPieces(pieces: seq<seq<Byte>>)
    requires DecodedLines(pieces).Some?
    ensures Decode(Flatten(pieces)).Some?
  {
    if pieces != [] {
      var front, last := pieces[..|pieces| - 1], pieces[|pieces| - 1];
      DecodedPieces(front);
      DecodedConcat(Flatten(front), last);
      FlattenAppend(front, last);
      assert pieces == front + [last];
    }
  }

  /** The filtered view fails exactly when the file is not valid UTF-8, whatever its last lines; the
      plain view when the bytes of these are not. */
  lemma ViewsFailIff(file: seq<Byte>, lines: nat, emit: string -> bool)
    ensures FilteredView(file, lines, emit).Err? <==> lines > 0 && Decode(file).None?
    ensures TailView(file, lines).Err? <==> lines > 0 && Decode(Flatten(LastN(Chunks(file, NL), lines))).None?
  {
    FlattenChunks(file, NL);
    if lines > 0 && FilteredView(file, lines, emit).Ok? {
      DecodedPieces(Chunks(file, NL));
    }
    if Decode(file).Some? {
      EncodeDecoded(file);
      ValidFilteredTail(Decode(file).value, lines, emit);
    }
  }

  lemma {:induction false} FilterAll<T>(s: seq<T>, keep: T -> bool)
    requires forall x :: x in s ==> keep(x)
    ensures Filter(s, keep) == s
  {
    if s != [] {
      FilterAll(s[1..], keep);
    }
  }

  /** Both views refine one specification: the last lines of the filtered log. */
  lemma ValidLogView(t: string, lines: nat, levels: seq<Level>, levelOf: string -> Option<string>)
    ensures var emit := Emitter(levels, levelOf);
            var shown := Ok(LastN(Filter(TextLines(t), emit), lines));
            && FilteredView(Encode(t), lines, emit) == shown
            && (levels == [] ==> TailView(Encode(t), lines) == shown)
  {
    ValidFilteredTail(t, lines, Emitter(levels, levelOf));
    if levels == [] {
      ValidTail(t, lines);
      FilterAll(TextLines(t), Emitter(levels, levelOf));
    }
  }

  /** A file that decodes is such a log, so both views always decode it. */
  lemma DecodableFileIsALog(file: seq<Byte>)
    requires Decode(file).Some?
    ensures file == Encode(Decode(file).value)
  {
    EncodeDecoded(file);
  }
}
