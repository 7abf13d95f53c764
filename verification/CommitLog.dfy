/** The commit log text that the git format of the dashboard produces, and its parser. */
module CommitLog {
  import opened Options
  import opened Text
  import opened Words
  import opened Lines

  const RECORD := '\U{1E}'
  const FIELD := '\U{1F}'

  datatype Commit = Commit(sha: string, parents: seq<string>, author: string, email: string,
                           timestamp: int, message: string)

  datatype Node = Node(sha: string, parents: seq<string>, author: string, email: string,
                       timestamp: int, message: string, checkpointId: string)

  // ---- The parser ----

  /** A record without a name or without its six fields is skipped; what follows the sixth is ignored. */
  function ParseFields(parts: seq<string>): Option<Node> {
    if |parts| < 6 || Trim(parts[0]) == [] then None
    else
      var timestamp := ParseSigned(Trim(parts[4]), I64_BOUND);
      Some(Node(Trim(parts[0]), Runs(parts[1], IsSolid()), Trim(parts[2]), Trim(parts[3]),
                if timestamp.Some? then timestamp.value else 0, Trim(parts[5]), []))
  }

  function ParseRecord(raw: string): Option<Node> {
    var record := Trim(raw);
    if record == [] then None else ParseFields(Split(record, FIELD))
  }

  function ParseRecords(records: seq<string>): seq<Node> {
    if records == [] then []
    else
      var first := ParseRecord(records[0]);
      (if first.Some? then [first.value] else []) + ParseRecords(records[1..])
  }

  method ParseBranchCommitLog(raw: string) returns (nodes: seq<Node>)
    ensures nodes == ParseRecords(Split(raw, RECORD))
    ensures forall commits, gaps :: (|gaps| == |commits| && AllWellFormed(commits) && AllGaps(gaps)
                                     && raw == PrintLog([], commits, gaps)) ==>
              nodes == Lines.Map(commits, NodeOf)
  {
    nodes := [];
    var records := Split(raw, RECORD);
    for i := 0 to |records|
      invariant nodes + ParseRecords(records[i..]) == ParseRecords(records)
    {
      var node := ParseRecord(records[i]);
      ParseNext(records, i, nodes, node);
      if node.None? {
        continue;
      }
      nodes := nodes + [node.value];
    }
    PrintedLogsParse(raw);
  }

  lemma ParseNext(records: seq<string>, i: nat, nodes: seq<Node>, node: Option<Node>)
    requires i < |records| && node == ParseRecord(records[i])
    ensures nodes + ParseRecords(records[i..]) ==
            (if node.Some? then nodes + [node.value] else nodes) + ParseRecords(records[i + 1..])
  {
    ParseFirst(records[i..], node);
    assert records[i..][1..] == records[i + 1..];
    if node.Some? {
      TakeOne(nodes, node.value, ParseRecords(records[i + 1..]));
    }
  }

  lemma ParseFirst(records: seq<string>, node: Option<Node>)
    requires records != [] && node == ParseRecord(records[0])
    ensures ParseRecords(records) == (if node.Some? then [node.value] else []) + ParseRecords(records[1..])
  {
  }

  lemma TakeOne(nodes: seq<Node>, node: Node, rest: seq<Node>)
    ensures nodes + ([node] + rest) == nodes + [node] + rest
  {
  }

  lemma PrintedLogsParse(raw: string)
    ensures forall commits, gaps :: (|gaps| == |commits| && AllWellFormed(commits) && AllGaps(gaps)
                                     && raw == PrintLog([], commits, gaps)) ==>
              ParseRecords(Split(raw, RECORD)) == Lines.Map(commits, NodeOf)
  {
    forall commits, gaps | |gaps| == |commits| && AllWellFormed(commits) && AllGaps(gaps)
                           && raw == PrintLog([], commits, gaps)
      ensures ParseRecords(Split(raw, RECORD)) == Lines.Map(commits, NodeOf)
    {
      PrintedLogParses([], commits, gaps);
    }
  }

  // ---- The format %H%x1f%P%x1f%an%x1f%ae%x1f%ct%x1f%s%x1e ----

  function PrintRecord(c: Commit): string {
    c.sha + [FIELD] + (Join(c.parents, ' ') + [FIELD] + (c.author + [FIELD] + (c.email + [FIELD]
    + (PrintInt(c.timestamp) + [FIELD] + c.message))))
  }

  /** The records, with whitespace in front of the first and behind each: git writes a newline behind
      every record, of which the last may have been trimmed. */
  function PrintLog(before: string, commits: seq<Commit>, gaps: seq<string>): string
    requires |gaps| == |commits|
    decreases commits
  {
    if commits == [] then before
    else before + PrintRecord(commits[0]) + [RECORD] + PrintLog(gaps[0], commits[1..], gaps[1..])
  }

  /** The bytes 0x1F and 0x1E of the format separate fields and end records. */
  lemma DeclaredFormat(c: Commit, gap: string)
    ensures PrintLog([], [c], [gap]) ==
            [] + (c.sha + ['\U{1F}'] + (Join(c.parents, ' ') + ['\U{1F}'] + (c.author + ['\U{1F}'] + (c.email + ['\U{1F}']
            + (PrintInt(c.timestamp) + ['\U{1F}'] + c.message))))) + ['\U{1E}'] + gap
  {
    assert [c][1..] == [] && [gap][1..] == [];
    assert PrintLog(gap, [], []) == gap;
  }

  predicate NoSeparator(s: string) {
    forall i :: 0 <= i < |s| ==> s[i] != RECORD && s[i] != FIELD
  }

  /** A name without whitespace or separators. */
  predicate IsName(s: string) {
    IsRun(s, IsSolid()) && NoSeparator(s)
  }

  /** Any number of parents; other texts trimmed, perhaps empty. */
  predicate WellFormed(c: Commit) {
    && IsName(c.sha) && (forall i :: 0 <= i < |c.parents| ==> IsName(c.parents[i]))
    && IsTrimmed(c.author) && NoSeparator(c.author)
    && IsTrimmed(c.email) && NoSeparator(c.email)
    && IsTrimmed(c.message) && NoSeparator(c.message)
    && -I64_BOUND <= c.timestamp < I64_BOUND
  }

  predicate AllWellFormed(commits: seq<Commit>) {
    forall i :: 0 <= i < |commits| ==> WellFormed(commits[i])
  }

  predicate AllGaps(gaps: seq<string>) {
    forall i :: 0 <= i < |gaps| ==> AllWhitespace(gaps[i])
  }

  function NodeOf(c: Commit): Node {
    Node(c.sha, c.parents, c.author, c.email, c.timestamp, c.message, [])
  }

  // ---- The round trip ----

  lemma {:induction false} JoinNoSeparator(words: seq<string>)
    requires forall i :: 0 <= i < |words| ==> NoSeparator(words[i])
    ensures NoSeparator(Join(words, ' '))
  {
    if |words| > 1 {
      JoinNoSeparator(words[1..]);
    }
  }

  lemma SplitField(head: string, tail: string)
    requires NoSeparator(head)
    ensures Split(head + [FIELD] + tail, FIELD) == [head] + Split(tail, FIELD)
  {
    SplitAtSeparator(head, FIELD, tail);
  }

  lemma PrintIntPlain(n: int)
    ensures NoSeparator(PrintInt(n)) && IsTrimmed(PrintInt(n))
  {
    var digits := PrintNat(if n < 0 then -n else n);
    assert forall i :: 0 <= i < |digits| ==> IsDigit(digits[i]);
    assert PrintInt(n)[|PrintInt(n)| - 1] == digits[|digits| - 1];
  }

  /** Six fields between separators are split again. */
  lemma SixFields(a: string, b: string, c: string, d: string, e: string, f: string)
    requires NoSeparator(a) && NoSeparator(b) && NoSeparator(c) && NoSeparator(d) && NoSeparator(e) && NoSeparator(f)
    ensures Split(a + [FIELD] + (b + [FIELD] + (c + [FIELD] + (d + [FIELD] + (e + [FIELD] + f)))), FIELD) ==
            [a, b, c, d, e, f]
  {
    var tail := e + [FIELD] + f;
    SplitNoSeparator(f, FIELD);
    SplitField(e, f);
    ThreeFields(b, c, d, tail, [e, f]);
    SplitField(a, b + [FIELD] + (c + [FIELD] + (d + [FIELD] + tail)));
  }

  lemma ThreeFields(b: string, c: string, d: string, tail: string, rest: seq<string>)
    requires NoSeparator(b) && NoSeparator(c) && NoSeparator(d) && Split(tail, FIELD) == rest
    ensures Split(b + [FIELD] + (c + [FIELD] + (d + [FIELD] + tail)), FIELD) == [b, c, d] + rest
  {
    SplitField(d, tail);
    SplitField(c, d + [FIELD] + tail);
    SplitField(b, c + [FIELD] + (d + [FIELD] + tail));
  }

  lemma FieldsPrinted(c: Commit)
    requires WellFormed(c)
    ensures Split(PrintRecord(c), FIELD) ==
            [c.sha, Join(c.parents, ' '), c.author, c.email, PrintInt(c.timestamp), c.message]
  {
    PrintIntPlain(c.timestamp);
    JoinNoSeparator(c.parents);
    SixFields(c.sha, Join(c.parents, ' '), c.author, c.email, PrintInt(c.timestamp), c.message);
  }

  lemma FieldsParse(c: Commit, parts: seq<string>)
    requires WellFormed(c)
    requires parts == [c.sha, Join(c.parents, ' '), c.author, c.email, PrintInt(c.timestamp), c.message]
    ensures ParseFields(parts) == Some(NodeOf(c))
  {
    TrimIsTrimmed(c.sha);
    TrimIsTrimmed(c.author);
    TrimIsTrimmed(c.email);
    TrimIsTrimmed(c.message);
    PrintIntPlain(c.timestamp);
    TrimIsTrimmed(PrintInt(c.timestamp));
    ParsePrintedInt(c.timestamp, I64_BOUND);
    RunsOfJoined(c.parents, ' ', IsSolid());
  }

  /** A record counts exactly when it has six fields or more and a name; a timestamp that cannot be read
      counts as 0, and what follows the sixth field does not count. */
  lemma FieldsOfRecord(parts: seq<string>)
    ensures ParseFields(parts).Some? <==> |parts| >= 6 && !AllWhitespace(parts[0])
    ensures ParseFields(parts).Some? ==> ParseFields(parts) == ParseFields(parts[..6])
    ensures ParseFields(parts).Some? && ParseSigned(Trim(parts[4]), I64_BOUND).None? ==> ParseFields(parts).value.timestamp == 0
  {
    if parts != [] {
      TrimIsEmptyIff(parts[0]);
    }
  }

  lemma {:induction false} WordsThenSpace(words: seq<string>, before: string, after: string)
    requires AllRuns(words, IsSolid()) && AllWhitespace(before) && AllWhitespace(after)
    ensures Runs(before + Join(words, ' ') + after, IsSolid()) == words
  {
    var text := Join(words, ' ');
    assert before + text + after == before + (text + after);
    RunsSkip(before, text + after, IsSolid());
    RunsOfTrimEnd(text + after, IsSolid());
    RunsOfTrimEnd(text, IsSolid());
    TrimEndSkips(text, after);
    RunsOfJoined(words, ' ', IsSolid());
  }

  /** Fields with whitespace around them are read without it. */
  lemma PaddedFieldsParse(c: Commit, before: seq<string>, after: seq<string>, parts: seq<string>)
    requires WellFormed(c) && |before| == |after| == |parts| == 6 && AllGaps(before) && AllGaps(after)
    requires parts[0] == before[0] + c.sha + after[0] && parts[1] == before[1] + Join(c.parents, ' ') + after[1]
    requires parts[2] == before[2] + c.author + after[2] && parts[3] == before[3] + c.email + after[3]
    requires parts[4] == before[4] + PrintInt(c.timestamp) + after[4] && parts[5] == before[5] + c.message + after[5]
    ensures ParseFields(parts) == Some(NodeOf(c))
  {
    TrimFramed(before[0], c.sha, after[0]);
    TrimFramed(before[2], c.author, after[2]);
    TrimFramed(before[3], c.email, after[3]);
    PrintIntPlain(c.timestamp);
    TrimFramed(before[4], PrintInt(c.timestamp), after[4]);
    TrimFramed(before[5], c.message, after[5]);
    ParsePrintedInt(c.timestamp, I64_BOUND);
    WordsThenSpace(c.parents, before[1], after[1]);
  }

  lemma RecordText(c: Commit)
    requires WellFormed(c)
    ensures IsTrimmed(PrintRecord(c)) && PrintRecord(c) != [] && RECORD !in PrintRecord(c)
  {
    var record := PrintRecord(c);
    PrintIntPlain(c.timestamp);
    JoinNoSeparator(c.parents);
    assert record[0] == c.sha[0];
    var last := PrintInt(c.timestamp) + [FIELD] + c.message;
    assert last[|last| - 1] == if c.message == [] then FIELD else c.message[|c.message| - 1];
    assert record[|record| - 1] == last[|last| - 1];
  }

  lemma RecordParses(before: string, c: Commit)
    requires WellFormed(c) && AllWhitespace(before)
    ensures ParseRecord(before + PrintRecord(c)) == Some(NodeOf(c))
  {
    var record := PrintRecord(c);
    RecordText(c);
    TrimFramed(before, record, []);
    assert before + record + [] == before + record;
    FieldsPrinted(c);
    FieldsParse(c, Split(record, FIELD));
  }

  /** The first record of a log is parsed by itself. */
  lemma FirstRecord(head: string, tail: string, node: Node, others: seq<Node>)
    requires RECORD !in head && ParseRecord(head) == Some(node) && ParseRecords(Split(tail, RECORD)) == others
    ensures ParseRecords(Split(head + [RECORD] + tail, RECORD)) == [node] + others
  {
    SplitAtSeparator(head, RECORD, tail);
    var rest := Split(tail, RECORD);
    assert ([head] + rest)[1..] == rest;
  }

  lemma FirstNode(commits: seq<Commit>)
    requires commits != []
    ensures [NodeOf(commits[0])] + Lines.Map(commits[1..], NodeOf) == Lines.Map(commits, NodeOf)
  {
  }

  /** A record behind whitespace has no record separator and parses to its commit. */
  lemma RecordBehindGap(before: string, c: Commit, head: string)
    requires WellFormed(c) && AllWhitespace(before) && head == before + PrintRecord(c)
    ensures RECORD !in head && ParseRecord(head) == Some(NodeOf(c))
  {
    RecordText(c);
    RecordParses(before, c);
  }

  lemma OnlyWhitespace(before: string)
    requires AllWhitespace(before)
    ensures ParseRecords(Split(before, RECORD)) == []
  {
    SplitNoSeparator(before, RECORD);
    TrimFramed(before, [], []);
    assert before + [] + [] == before;
    assert [before][1..] == [];
  }

  /** The parser returns the commits of any printed log, in order. */
  lemma {:induction false} PrintedLogParses(before: string, commits: seq<Commit>, gaps: seq<string>)
    requires |gaps| == |commits| && AllWellFormed(commits) && AllGaps(gaps) && AllWhitespace(before)
    ensures ParseRecords(Split(PrintLog(before, commits, gaps), RECORD)) == Lines.Map(commits, NodeOf)
    decreases commits
  {
    if commits == [] {
      OnlyWhitespace(before);
    } else {
      var head, tail := before + PrintRecord(commits[0]), PrintLog(gaps[0], commits[1..], gaps[1..]);
      PrintedLogParses(gaps[0], commits[1..], gaps[1..]);
      RecordBehindGap(before, commits[0], head);
      FirstRecord(head, tail, NodeOf(commits[0]), Lines.Map(commits[1..], NodeOf));
      FirstNode(commits);
    }
  }
}
