/** The managed hook command with its quoted config path, and the scanner that strips leading
    environment assignments to recognise it. A reader of POSIX shell words stands beside them. */
module HookCommand {
  import opened Options
  import opened Text

  const ENV_NAME := "BITLOOPS_DAEMON_CONFIG_PATH_OVERRIDE"

  // ---- The printer ----

  /** A single quote becomes a closing quote, a double-quoted single quote and an opening one. */
  function QuoteChar(c: char): string {
    if c == '\'' then "'\"'\"'" else [c]
  }

  function QuoteBody(value: string): string {
    if value == [] then [] else QuoteChar(value[0]) + QuoteBody(value[1..])
  }

  function ShellSingleQuote(value: string): string {
    "'" + QuoteBody(value) + "'"
  }

  function ManagedHookCommand(command: string, config: Option<string>): string {
    match config
    case None => command
    case Some(path) => ENV_NAME + "=" + ShellSingleQuote(path) + " " + command
  }

  // ---- The scanner ----

  /** The three flags. */
  datatype Quoting = Quoting(inSingle: bool, inDouble: bool, escaped: bool)

  const PLAIN := Quoting(false, false, false)

  function Advance(q: Quoting, c: char): Quoting {
    if q.escaped then q.(escaped := false)
    else if c == '\\' && !q.inSingle then q.(escaped := true)
    else if c == '\'' && !q.inDouble then q.(inSingle := !q.inSingle)
    else if c == '"' && !q.inSingle then q.(inDouble := !q.inDouble)
    else q
  }

  /** The flags behind `s`. */
  function QuotingAfter(q: Quoting, s: string): Quoting
    decreases s
  {
    if s == [] then q else QuotingAfter(Advance(q, s[0]), s[1..])
  }

  /** Position `i` of `s` is whitespace that no quote and no backslash covers. */
  predicate Separates(s: string, i: nat)
    requires i < |s|
  {
    IsWhitespace(s[i]) && QuotingAfter(PLAIN, s[..i]) == PLAIN
  }

  lemma {:induction false} QuotingConcat(q: Quoting, s: string, t: string)
    ensures QuotingAfter(q, s + t) == QuotingAfter(QuotingAfter(q, s), t)
    decreases s
  {
    if s == [] {
      assert s + t == t;
    } else {
      assert (s + t)[1..] == s[1..] + t;
      QuotingConcat(Advance(q, s[0]), s[1..], t);
    }
  }

  /** The first separating whitespace, if there is any. */
  method FirstUnquotedWhitespace(input: string) returns (r: Option<nat>)
    ensures r == TokenEnd(input)
  {
    var inSingle, inDouble, escaped := false, false, false;
    for idx := 0 to |input|
      invariant Quoting(inSingle, inDouble, escaped) == QuotingAfter(PLAIN, input[..idx])
      invariant forall i :: 0 <= i < idx ==> !Separates(input, i)
    {
      var ch := input[idx];
      assert input[..idx + 1] == input[..idx] + [ch];
      QuotingConcat(PLAIN, input[..idx], [ch]);
      if escaped {
        escaped := false;
        continue;
      }
      if ch == '\\' && !inSingle {
        escaped := true;
      } else if ch == '\'' && !inDouble {
        inSingle := !inSingle;
      } else if ch == '"' && !inSingle {
        inDouble := !inDouble;
      } else if IsWhitespace(ch) && !inSingle && !inDouble {
        TokenEndIs(input, idx);
        return Some(idx);
      }
    }
    NoTokenEnd(input);
    return None;
  }

  /** The least separating position. */
  function TokenEnd(s: string): (r: Option<nat>)
    ensures r.Some? ==> r.value < |s| && Separates(s, r.value) && forall i :: 0 <= i < r.value ==> !Separates(s, i)
    ensures r.None? ==> forall i :: 0 <= i < |s| ==> !Separates(s, i)
  {
    TokenEndFrom(s, 0)
  }

  function TokenEndFrom(s: string, from: nat): (r: Option<nat>)
    requires from <= |s| && forall i :: 0 <= i < from ==> !Separates(s, i)
    ensures r.Some? ==> r.value < |s| && Separates(s, r.value) && forall i :: 0 <= i < r.value ==> !Separates(s, i)
    ensures r.None? ==> forall i :: 0 <= i < |s| ==> !Separates(s, i)
    decreases |s| - from
  {
    if from == |s| then None else if Separates(s, from) then Some(from) else TokenEndFrom(s, from + 1)
  }

  lemma TokenEndIs(s: string, k: nat)
    requires k < |s| && Separates(s, k) && forall i :: 0 <= i < k ==> !Separates(s, i)
    ensures TokenEnd(s) == Some(k)
  {
    assert TokenEnd(s).Some?;
  }

  lemma NoTokenEnd(s: string)
    requires forall i :: 0 <= i < |s| ==> !Separates(s, i)
    ensures TokenEnd(s) == None
  {
  }

  predicate LooksLikeAssignment(token: string) {
    var eq := IndexOf(token, '=');
    && 0 < eq < |token|
    && (IsAlpha(token[0]) || token[0] == '_')
    && forall i :: 1 <= i < eq ==> IsAlphanumeric(token[i]) || token[i] == '_'
  }

  // ---- Stripping ----

  lemma TokenIsNotEmpty(trimmed: string)
    requires trimmed == [] || !IsWhitespace(trimmed[0])
    ensures TokenEnd(trimmed).Some? ==> TokenEnd(trimmed).value > 0
  {
  }

  /** What is left behind the leading assignments. */
  function Strip(input: string): string
    decreases |input|
  {
    var trimmed := TrimStart(input);
    TrimStartResult(input);
    match TokenEnd(trimmed)
    case None => trimmed
    case Some(end) =>
      if LooksLikeAssignment(trimmed[..end]) then
        TokenIsNotEmpty(trimmed);
        Strip(trimmed[end..])
      else trimmed
  }

  predicate IsName(name: string) {
    && name != [] && (IsAlpha(name[0]) || name[0] == '_')
    && forall i :: 0 <= i < |name| ==> IsAlphanumeric(name[i]) || name[i] == '_'
  }

  /** A name, `=`, and anything. */
  ghost predicate IsAssignment(token: string) {
    exists name, value :: IsName(name) && token == name + ['='] + value
  }

  lemma AssignmentIff(token: string)
    ensures LooksLikeAssignment(token) <==> IsAssignment(token)
  {
    if LooksLikeAssignment(token) {
      var eq := IndexOf(token, '=');
      CutAround(token, eq);
      assert IsName(token[..eq]);
    }
    if name, value :| IsName(name) && token == name + ['='] + value {
      assert forall i :: 0 <= i < |name| ==> name[i] != '=' && token[i] == name[i];
      IndexOfUnique(name, '=', value);
    }
  }

  lemma TokenInFront(token: string, ws: char, rest: string)
    requires token != []
    ensures var s := token + [ws] + rest;
            s[0] == token[0] && s[..|token|] == token && s[|token|..] == [ws] + rest
  {
  }

  lemma StripTrimmed(s: string, end: nat)
    requires s != [] && !IsWhitespace(s[0]) && TokenEnd(s) == Some(end)
    ensures Strip(s) == if LooksLikeAssignment(s[..end]) then Strip(s[end..]) else s
  {
    assert TrimStart(s) == s;
  }

  lemma StripIgnoresSpace(before: string, s: string)
    requires AllWhitespace(before)
    ensures Strip(before + s) == Strip(s)
  {
    TrimStartSkips(before, s);
  }

  /** The first token is dropped exactly when it is an assignment, and otherwise nothing is but the
      whitespace in front. */
  lemma StripFirstToken(before: string, token: string, ws: char, rest: string)
    requires AllWhitespace(before) && token != [] && !IsWhitespace(token[0])
    requires TokenEnd(token + [ws] + rest) == Some(|token|)
    ensures Strip(before + (token + [ws] + rest)) ==
            if IsAssignment(token) then Strip([ws] + rest) else token + [ws] + rest
  {
    var s := token + [ws] + rest;
    StripIgnoresSpace(before, s);
    TokenInFront(token, ws, rest);
    StripTrimmed(s, |token|);
    AssignmentIff(token);
  }

  /** A command that is one token is kept, assignment or not. */
  lemma StripOneToken(before: string, token: string)
    requires AllWhitespace(before) && token != [] && !IsWhitespace(token[0]) && TokenEnd(token) == None
    ensures Strip(before + token) == token
  {
    TrimStartSkips(before, token);
    assert TrimStart(token) == token;
  }

  /** So a command whose first word is plain and no assignment is recognised by its own beginning. */
  lemma PlainCommandIsKept(word: string, ws: char, rest: string, prefixes: seq<string>)
    requires word != [] && IsWhitespace(ws)
    requires forall i :: 0 <= i < |word| ==> !IsWhitespace(word[i]) && word[i] !in {'\'', '"', '\\', '='}
    ensures Strip(word + [ws] + rest) == word + [ws] + rest
    ensures IsManaged(word + [ws] + rest, prefixes) <==>
            exists i :: 0 <= i < |prefixes| && prefixes[i] <= word + [ws] + rest
  {
    var s := word + [ws] + rest;
    assert s[..|word|] == word;
    PlainTextStaysPlain(word);
    TokenEndIs(s, |word|);
    StripFirstToken([], word, ws, rest);
    assert [] + s == s;
    AssignmentIff(word);
  }

  method StripLeadingShellEnvAssignments(text: string) returns (stripped: string)
    ensures stripped == Strip(text)
  {
    var input := text;
    while true
      invariant Strip(input) == Strip(text)
      decreases |input|
    {
      var trimmed := TrimStart(input);
      TrimStartResult(input);
      var tokenEnd := FirstUnquotedWhitespace(trimmed);
      if tokenEnd.None? {
        return trimmed;
      }
      var token := trimmed[..tokenEnd.value];
      if !LooksLikeAssignment(token) {
        return trimmed;
      }
      TokenIsNotEmpty(trimmed);
      input := trimmed[tokenEnd.value..];
    }
  }

  /** A command is managed when what is left starts with one of the prefixes. */
  predicate IsManaged(command: string, prefixes: seq<string>) {
    exists i :: 0 <= i < |prefixes| && prefixes[i] <= Strip(command)
  }

  method IsManagedHookCommand(command: string, prefixes: seq<string>) returns (managed: bool)
    ensures managed == IsManaged(command, prefixes)
  {
    var stripped := StripLeadingShellEnvAssignments(command);
    for i := 0 to |prefixes|
      invariant forall k :: 0 <= k < i ==> !(prefixes[k] <= Strip(command))
    {
      if prefixes[i] <= stripped {
        return true;
      }
    }
    return false;
  }

  // ---- The printer and the recogniser ----

  /** Between its outer quotes a quoted value never leaves the single-quoted state for a character of
      the value that is whitespace. */
  lemma {:induction false} QuotedBodyStaysQuoted(value: string, i: nat)
    requires i < |QuoteBody(value)|
    ensures QuotingAfter(PLAIN.(inSingle := true), QuoteBody(value)) == PLAIN.(inSingle := true)
    ensures IsWhitespace(QuoteBody(value)[i]) ==>
              QuotingAfter(PLAIN.(inSingle := true), QuoteBody(value)[..i]) != PLAIN
  {
    var single := PLAIN.(inSingle := true);
    var head := QuoteChar(value[0]);
    var rest := QuoteBody(value[1..]);
    QuotedHead(value[0]);
    QuotingConcat(single, head, rest);
    if rest != [] {
      QuotedBodyStaysQuoted(value[1..], if i < |head| then 0 else i - |head|);
    }
    if i < |head| {
      if IsWhitespace((head + rest)[i]) {
        assert i == 0;
        assert (head + rest)[..i] == [];
      }
    } else {
      assert (head + rest)[..i] == head + rest[..i - |head|];
      QuotingConcat(single, head, rest[..i - |head|]);
    }
  }

  lemma QuotedHead(c: char)
    ensures var single := PLAIN.(inSingle := true);
            QuotingAfter(single, QuoteChar(c)) == single
  {
    var single := PLAIN.(inSingle := true);
    if c == '\'' {
      var s := "'\"'\"'";
      assert s[1..] == "\"'\"'" && s[1..][1..] == "'\"'" && s[1..][1..][1..] == "\"'";
      assert s[1..][1..][1..][1..] == "'" && s[1..][1..][1..][1..][1..] == "";
      assert QuotingAfter(single, s) == QuotingAfter(PLAIN, s[1..]);
      assert QuotingAfter(PLAIN, s[1..]) == QuotingAfter(PLAIN.(inDouble := true), s[1..][1..]);
      assert QuotingAfter(PLAIN.(inDouble := true), s[1..][1..]) == QuotingAfter(PLAIN.(inDouble := true), s[1..][1..][1..]);
    } else {
      assert [c][1..] == [];
    }
  }

  lemma {:induction false} PlainTextStaysPlain(s: string)
    requires forall i :: 0 <= i < |s| ==> s[i] != '\\' && s[i] != '\'' && s[i] != '"'
    ensures QuotingAfter(PLAIN, s) == PLAIN
  {
    if s != [] {
      PlainTextStaysPlain(s[1..]);
    }
  }

  lemma OpensQuote(name: string)
    requires IsName(name)
    ensures QuotingAfter(PLAIN, name + "='") == PLAIN.(inSingle := true)
    ensures forall i :: 0 <= i < |name| + 2 ==> !IsWhitespace((name + "='")[i])
  {
    var plain := name + ['='];
    PlainTextStaysPlain(plain);
    QuotingConcat(PLAIN, plain, ['\'']);
    assert ['\''][1..] == [];
    assert name + "='" == plain + ['\''];
  }

  /** Nothing separates inside a quoted assignment, and behind it everything is plain again. */
  lemma QuotedAssignmentIsOneToken(name: string, value: string, i: nat)
    requires IsName(name)
    ensures var token := name + "='" + QuoteBody(value) + "'";
            && QuotingAfter(PLAIN, token) == PLAIN
            && (i < |token| && IsWhitespace(token[i]) ==> QuotingAfter(PLAIN, token[..i]) != PLAIN)
  {
    var open, body := name + "='", QuoteBody(value);
    var token := open + body + "'";
    OpensQuote(name);
    if body != [] {
      QuotedBodyStaysQuoted(value, if |open| <= i < |open| + |body| then i - |open| else 0);
    }
    QuotingConcat(PLAIN, open, body);
    QuotingConcat(PLAIN, open + body, "'");
    if |open| <= i < |open| + |body| {
      assert token[..i] == open + body[..i - |open|];
      QuotingConcat(PLAIN, open, body[..i - |open|]);
    } else if i < |open| {
      assert token[i] == open[i];
    }
  }

  /** An assignment of a quoted value ends where the value's closing quote does. */
  lemma QuotedAssignmentEnds(name: string, value: string, ws: char, rest: string)
    requires IsName(name) && IsWhitespace(ws)
    ensures var token := name + "=" + ShellSingleQuote(value);
            TokenEnd(token + [ws] + rest) == Some(|token|) && LooksLikeAssignment(token)
  {
    var token := name + "=" + ShellSingleQuote(value);
    var s := token + [ws] + rest;
    assert token == name + "='" + QuoteBody(value) + "'";
    assert s[..|token|] == token;
    forall i | 0 <= i < |token| ensures !Separates(s, i) {
      QuotedAssignmentIsOneToken(name, value, i);
      assert s[..i] == token[..i];
    }
    QuotedAssignmentIsOneToken(name, value, 0);
    TokenEndIs(s, |token|);
    IndexOfUnique(name, '=', ShellSingleQuote(value));
    assert token == name + ['='] + ShellSingleQuote(value);
  }

  lemma StripSkipsWhitespace(ws: char, rest: string)
    requires IsWhitespace(ws)
    ensures Strip([ws] + rest) == Strip(rest)
  {
    TrimStartSkips([ws], rest);
  }

  /** Any assignment of a quoted value in front is stripped, whatever the value. */
  lemma StripUndoesAssignment(name: string, value: string, ws: char, command: string)
    requires IsName(name) && IsWhitespace(ws)
    ensures Strip(name + "=" + ShellSingleQuote(value) + [ws] + command) == Strip(command)
  {
    var token := name + "=" + ShellSingleQuote(value);
    var s := token + [ws] + command;
    QuotedAssignmentEnds(name, value, ws, command);
    assert s[0] == name[0];
    assert TrimStart(s) == s;
    assert s[..|token|] == token && s[|token|..] == [ws] + command;
    StripSkipsWhitespace(ws, command);
  }

  /** Wrapping a command with any config path does not change what stripping leaves of it. */
  lemma StripUndoesWrapping(command: string, config: Option<string>)
    ensures Strip(ManagedHookCommand(command, config)) == Strip(command)
  {
    if config.Some? {
      StripUndoesAssignment(ENV_NAME, config.value, ' ', command);
    }
  }

  /** A backslash outside single quotes covers the next character, and leaves the quoting as it was. */
  lemma BackslashCovers(s: string, i: nat)
    requires i + 1 < |s| && s[i] == '\\'
    requires QuotingAfter(PLAIN, s[..i]) == PLAIN || QuotingAfter(PLAIN, s[..i]) == PLAIN.(inDouble := true)
    ensures !Separates(s, i + 1) && QuotingAfter(PLAIN, s[..i + 2]) == QuotingAfter(PLAIN, s[..i])
  {
    var q := QuotingAfter(PLAIN, s[..i]);
    QuotingConcat(PLAIN, s[..i], [s[i]]);
    QuotingConcat(PLAIN, s[..i + 1], [s[i + 1]]);
    assert s[..i + 1] == s[..i] + [s[i]] && s[..i + 2] == s[..i + 1] + [s[i + 1]];
    OneMore(q, s[i]);
    OneMore(Advance(q, s[i]), s[i + 1]);
  }

  lemma OneMore(q: Quoting, c: char)
    ensures QuotingAfter(q, [c]) == Advance(q, c)
  {
    assert [c][1..] == [];
  }

  /** An assignment in double quotes, of a value that needs no escape, is one token too. */
  lemma DoubleQuotesCover(name: string, value: string, ws: char, rest: string)
    requires IsName(name) && IsWhitespace(ws)
    requires forall i :: 0 <= i < |value| ==> value[i] !in {'\\', '"'}
    ensures TokenEnd(name + "=\"" + value + "\"" + [ws] + rest) == Some(|name| + |value| + 3)
  {
    var open := name + ['=', '"'];
    var token := open + value + ['"'];
    var s := name + "=\"" + value + "\"" + [ws] + rest;
    assert s == token + [ws] + rest && s[..|token|] == token;
    PlainTextStaysPlain(name + ['=']);
    QuotingConcat(PLAIN, name + ['='], ['"']);
    OneMore(PLAIN, '"');
    assert open == name + ['='] + ['"'];
    var quoted := PLAIN.(inDouble := true);
    InDoubleStays(value);
    QuotingConcat(PLAIN, open, value);
    QuotingConcat(PLAIN, open + value, ['"']);
    OneMore(quoted, '"');
    forall i | 0 <= i < |token| ensures !Separates(s, i) {
      if |open| <= i < |open| + |value| {
        assert s[..i] == open + value[..i - |open|];
        QuotingConcat(PLAIN, open, value[..i - |open|]);
        InDoubleStays(value[..i - |open|]);
      } else {
        assert s[i] == (if i < |open| then open[i] else '"');
      }
    }
    TokenEndIs(s, |token|);
  }

  lemma {:induction false} InDoubleStays(value: string)
    requires forall i :: 0 <= i < |value| ==> value[i] !in {'\\', '"'}
    ensures QuotingAfter(PLAIN.(inDouble := true), value) == PLAIN.(inDouble := true)
  {
    if value != [] {
      InDoubleStays(value[1..]);
    }
  }

  /** So the recogniser accepts the wrapped command exactly when it accepts the bare one. */
  lemma WrappedIsManagedIffBareIs(command: string, config: Option<string>, prefixes: seq<string>)
    ensures IsManaged(ManagedHookCommand(command, config), prefixes) <==> IsManaged(command, prefixes)
  {
    StripUndoesWrapping(command, config);
  }

  /** Stripping leaves nothing to strip. */
  lemma {:induction false} StripIsIdempotent(input: string)
    ensures Strip(Strip(input)) == Strip(input)
    decreases |input|
  {
    var trimmed := TrimStart(input);
    TrimStartResult(input);
    var end := TokenEnd(trimmed);
    if end.Some? && LooksLikeAssignment(trimmed[..end.value]) {
      TokenIsNotEmpty(trimmed);
      StripIsIdempotent(trimmed[end.value..]);
    } else {
      TrimStartResult(trimmed);
    }
  }

  // ---- What a shell makes of the quoted path ----

  datatype Word = Word(text: string, rest: string)

  /** An unquoted blank or newline ends a word, and so does the first character of an operator. */
  predicate EndsWord(c: char) {
    c in {' ', '\t', '\n', '|', '&', ';', '<', '>', '(', ')'}
  }

  /** Reading one POSIX shell word (sections 2.2 and 2.3 of the Shell Command Language) and removing its
      quotes; nothing when a quote is left open, or at a `$` or backquote that would expand. Inside
      double quotes a backslash is kept unless it stands before `$`, a backquote, `"`, a backslash or
      a newline. */
  function ReadWord(s: string, mode: Mode): Option<Word>
    decreases |s|
  {
    if s == [] then (if mode == Unquoted then Some(Word([], [])) else None)
    else match mode
      case InSingle =>
        if s[0] == '\'' then ReadWord(s[1..], Unquoted) else Prepend(s[0], ReadWord(s[1..], InSingle))
      case InDouble =>
        if s[0] == '"' then ReadWord(s[1..], Unquoted)
        else if s[0] == '\\' && |s| > 1 && s[1] in {'$', '`', '"', '\\', '\n'} then
          (if s[1] == '\n' then ReadWord(s[2..], InDouble) else Prepend(s[1], ReadWord(s[2..], InDouble)))
        else if s[0] in {'$', '`'} then None
        else Prepend(s[0], ReadWord(s[1..], InDouble))
      case Unquoted =>
        if EndsWord(s[0]) then Some(Word([], s))
        else if s[0] == '\'' then ReadWord(s[1..], InSingle)
        else if s[0] == '"' then ReadWord(s[1..], InDouble)
        else if s[0] == '\\' && |s| > 1 then
          (if s[1] == '\n' then ReadWord(s[2..], Unquoted) else Prepend(s[1], ReadWord(s[2..], Unquoted)))
        else if s[0] in {'$', '`'} then None
        else Prepend(s[0], ReadWord(s[1..], Unquoted))
  }

  datatype Mode = Unquoted | InSingle | InDouble

  function Prepend(c: char, w: Option<Word>): Option<Word> {
    match w
    case None => None
    case Some(Word(text, rest)) => Some(Word([c] + text, rest))
  }

  lemma ReadQuotedChar(c: char, tail: string)
    ensures ReadWord(QuoteChar(c) + tail, InSingle) == Prepend(c, ReadWord(tail, InSingle))
  {
    if c == '\'' {
      var s5 := "'" + tail;
      var s4 := "\"" + s5;
      var s3 := "'" + s4;
      var s2 := "\"" + s3;
      var s1 := "'" + s2;
      assert QuoteChar(c) + tail == s1;
      assert s1[1..] == s2 && s2[1..] == s3 && s3[1..] == s4 && s4[1..] == s5 && s5[1..] == tail;
      assert ReadWord(s3, InDouble) == Prepend('\'', ReadWord(s4, InDouble));
      assert ReadWord(s4, InDouble) == ReadWord(s5, Unquoted);
      assert ReadWord(s1, InSingle) == ReadWord(s2, Unquoted);
    } else {
      assert ([c] + tail)[1..] == tail;
    }
  }

  lemma ReadClosingQuote(rest: string)
    requires rest == [] || EndsWord(rest[0])
    ensures ReadWord("'" + rest, InSingle) == Some(Word([], rest))
  {
    assert ("'" + rest)[1..] == rest;
  }

  lemma QuotedFront(c: char, body: string, rest: string)
    ensures QuoteChar(c) + body + "'" + rest == QuoteChar(c) + (body + "'" + rest)
  {
  }

  lemma {:induction false} ReadQuotedBody(value: string, rest: string)
    requires rest == [] || EndsWord(rest[0])
    ensures ReadWord(QuoteBody(value) + "'" + rest, InSingle) == Some(Word(value, rest))
  {
    if value == [] {
      assert QuoteBody(value) + "'" + rest == "'" + rest;
      ReadClosingQuote(rest);
    } else {
      var body := QuoteBody(value[1..]);
      ReadQuotedBody(value[1..], rest);
      QuotedFront(value[0], body, rest);
      ReadQuotedChar(value[0], body + "'" + rest);
      assert value == [value[0]] + value[1..];
    }
  }

  lemma ReadOpeningQuote(body: string, rest: string)
    ensures ReadWord("'" + body + "'" + rest, Unquoted) == ReadWord(body + "'" + rest, InSingle)
  {
    assert ("'" + body + "'" + rest)[1..] == body + "'" + rest;
  }

  /** A shell reads the quoted path back as the path, whatever characters it holds. */
  lemma ShellReadsTheQuotedValue(value: string, rest: string)
    requires rest == [] || EndsWord(rest[0])
    ensures ReadWord(ShellSingleQuote(value) + rest, Unquoted) == Some(Word(value, rest))
  {
    ReadQuotedBody(value, rest);
    ReadOpeningQuote(QuoteBody(value), rest);
  }

  lemma BehindName(env: string, name: string, quoted: string, rest: string)
    requires name == env + "="
    ensures var s := env + "=" + quoted + " " + rest;
            name <= s && s[|name|..] == quoted + (" " + rest)
  {
    assert env + "=" + quoted + " " + rest == name + (quoted + (" " + rest));
  }

  /** So a shell runs the wrapped command with the variable set to exactly the path. */
  lemma WrappedSetsTheVariable(command: string, path: string)
    ensures var wrapped, name := ManagedHookCommand(command, Some(path)), "BITLOOPS_DAEMON_CONFIG_PATH_OVERRIDE=";
            name <= wrapped && ReadWord(wrapped[|name|..], Unquoted) == Some(Word(path, " " + command))
  {
    var name, quoted := "BITLOOPS_DAEMON_CONFIG_PATH_OVERRIDE=", ShellSingleQuote(path);
    ShellReadsTheQuotedValue(path, " " + command);
    BehindName(ENV_NAME, name, quoted, command);
  }
}
