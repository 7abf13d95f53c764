/** The discard protocol of `bitloops doctor --force`: sessions that are stuck are deleted from the
    session store, and a shadow branch goes with them only if no remaining session needs it.
    The store, git and their failures are modelled; SHA-256 is the parameter `tag`, and what condensing
    a session leaves behind is a parameter too. */
module SessionRepair {
  import opened Options
  import opened Sorting
  import opened Text
  import opened Utf8
  import opened Calendar
  import opened Timestamps

  datatype Phase = Active | Ended | Idle

  /** `stepCount` is the 32-bit count of pending checkpoint steps, `lastInteraction` a time as stored. */
  datatype Session = Session(baseCommit: string, worktreeId: string, phase: Phase,
                             stepCount: nat, lastInteraction: Option<string>)

  /** What is known of a stuck session when its turn comes. */
  datatype Stuck = Stuck(id: string, branch: string, hasBranch: bool, checkpointCount: int)

  /** The session store and the branches of the repository. */
  datatype World = World(sessions: map<string, Session>, branches: set<string>)

  const STALENESS_THRESHOLD := 3600 * 1_000_000_000
  const BRANCH_PREFIX := "bitloops/"

  /** The first six hexadecimal digits of the SHA-256 of a worktree id. */
  type Tag = string -> string

  function ShadowBranch(s: Session, tag: Tag): string {
    if s.baseCommit == [] then []
    else BRANCH_PREFIX + TakeBytes(s.baseCommit, 7) + "-" + tag(s.worktreeId)
  }

  /** The name is made of the first seven bytes of the commit, and the program stops when they end
      inside a character. */
  predicate Nameable(s: Session) {
    !CutsAt(s.baseCommit, 7)
  }

  predicate AllNameable(sessions: map<string, Session>) {
    forall id :: id in sessions ==> Nameable(sessions[id])
  }

  /** The cast from u32 to i32. */
  function AsI32(n: nat): int {
    var low := n % 0x1_0000_0000;
    if low < 0x8000_0000 then low else low - 0x1_0000_0000
  }

  /** The stored time in nanoseconds since the epoch, if it can be read. */
  function LastSpoke(s: Session): Option<int> {
    match s.lastInteraction
    case None => None
    case Some(text) =>
      (match ParseTimeString(text)
       case Instant(seconds) => Some(seconds * 1_000_000_000)
       case _ => None)
  }

  /** Reading the stored time stops the program. */
  predicate TimeStops(s: Session) {
    s.lastInteraction.Some? && StopsProgram(ParseTimeString(s.lastInteraction.value))
  }

  /** A stored time that is a number of seconds from 2^63 on, or a readable date with an offset that
      cuts a character. */
  predicate HasStoppingTime(s: Session) {
    s.lastInteraction.Some? &&
    (var text := Trim(s.lastInteraction.value);
     IsHugeNumber(text) || CutsAfterDate(text))
  }

  /** A session that stops every run over the store that lists it. */
  predicate StopsRun(s: Session) {
    CutsAt(s.baseCommit, 7) || HasStoppingTime(s)
  }

  lemma TimeStopsExactlyWhen(s: Session)
    ensures TimeStops(s) <==> HasStoppingTime(s)
  {
    if s.lastInteraction.Some? {
      StopsExactlyWhen(s.lastInteraction.value);
    }
  }

  /** Only branches under the prefix are listed. */
  predicate Listed(branch: string, branches: set<string>) {
    branch in branches && BRANCH_PREFIX <= branch
  }

  function Classify(id: string, s: Session, lastSpoke: Option<int>, branches: set<string>, now: int, tag: Tag): Option<Stuck> {
    var branch := ShadowBranch(s, tag);
    var found := Stuck(id, branch, Listed(branch, branches), AsI32(s.stepCount));
    match s.phase
    case Active =>
      (match lastSpoke
       case None => Some(found)
       case Some(last) => if now - last > STALENESS_THRESHOLD then Some(found) else None)
    case Ended => if AsI32(s.stepCount) <= 0 || !found.hasBranch then None else Some(found)
    case Idle => None
  }

  /** Classification of a session as it is stored. */
  function Verdict(id: string, s: Session, branches: set<string>, now: int, tag: Tag): Option<Stuck> {
    Classify(id, s, LastSpoke(s), branches, now, tag)
  }

  /** A session with pending steps stands on the branch. */
  ghost predicate Needed(sessions: map<string, Session>, branch: string, tag: Tag) {
    exists id :: id in sessions && sessions[id].stepCount != 0 && ShadowBranch(sessions[id], tag) == branch
  }

  // ---- One discard, with everything that can go wrong ----

  /** How the environment answers one discard: a failing delete or `git branch -D` may or may not
      have taken effect, and listing the sessions may fail. */
  datatype Faults = Faults(deleteFails: bool, deletedAnyway: bool, listFails: bool,
                           gitFails: bool, removedAnyway: bool)

  const NO_FAULTS := Faults(false, false, false, false, false)

  ghost function Discard(w: World, stuck: Stuck, f: Faults, tag: Tag): World {
    if f.deleteFails then
      if f.deletedAnyway then w.(sessions := w.sessions - {stuck.id}) else w
    else
      var rest := w.sessions - {stuck.id};
      if stuck.hasBranch && !f.listFails && !Needed(rest, stuck.branch, tag) && (!f.gitFails || f.removedAnyway)
      then World(rest, w.branches - {stuck.branch})
      else World(rest, w.branches)
  }

  ghost function DiscardAll(w: World, queue: seq<Stuck>, faults: seq<Faults>, tag: Tag): World
    requires |faults| == |queue|
    decreases queue
  {
    if queue == [] then w
    else DiscardAll(Discard(w, queue[0], faults[0], tag), queue[1..], faults[1..], tag)
  }

  /** A stuck session with pending steps and a branch is condensed if the strategy can. */
  predicate Condenses(stuck: Stuck, canCondense: bool) {
    canCondense && stuck.hasBranch && stuck.checkpointCount > 0
  }

  /** What the environment does at one stuck session: the failures of a discard, or the state that
      condensing leaves behind, whether it succeeds or not. */
  datatype Turn = Turn(faults: Faults, condensed: World)

  ghost predicate TurnsNameable(turns: seq<Turn>) {
    forall i :: 0 <= i < |turns| ==> AllNameable(turns[i].condensed.sessions)
  }

  ghost function RepairOne(w: World, stuck: Stuck, turn: Turn, canCondense: bool, tag: Tag): World {
    if Condenses(stuck, canCondense) then turn.condensed else Discard(w, stuck, turn.faults, tag)
  }

  /** The forced loop over the stuck sessions. */
  ghost function Repair(w: World, queue: seq<Stuck>, turns: seq<Turn>, canCondense: bool, tag: Tag): World
    requires |turns| == |queue|
    decreases queue
  {
    if queue == [] then w
    else Repair(RepairOne(w, queue[0], turns[0], canCondense, tag), queue[1..], turns[1..], canCondense, tag)
  }

  /** The store lists every session, in some order. */
  ghost predicate IsListing(listing: seq<string>, sessions: map<string, Session>) {
    && (forall k :: 0 <= k < |listing| ==> listing[k] in sessions)
    && (forall id :: id in sessions ==> id in listing)
  }

  class Doctor {
    var sessions: map<string, Session>
    var branches: set<string>
    const tag: Tag

    constructor (sessions: map<string, Session>, branches: set<string>, tag: Tag)
      ensures State() == World(sessions, branches) && this.tag == tag
    {
      this.sessions, this.branches, this.tag := sessions, branches, tag;
    }

    ghost function State(): World
      reads this
    {
      World(sessions, branches)
    }

    method CanDeleteShadowBranch(branch: string, exclude: string) returns (yes: bool)
      requires AllNameable(sessions)
      ensures yes <==> !Needed(sessions - {exclude}, branch, tag)
    {
      var todo := sessions.Keys;
      while todo != {}
        invariant todo <= sessions.Keys
        invariant forall id :: id in sessions && id !in todo && id != exclude ==>
                    sessions[id].stepCount == 0 || ShadowBranch(sessions[id], tag) != branch
      {
        var id :| id in todo;
        todo := todo - {id};
        if id == exclude || sessions[id].stepCount == 0 {
          continue;
        }
        if ShadowBranch(sessions[id], tag) == branch {
          assert id in sessions - {exclude};
          return false;
        }
      }
      return true;
    }

    method DiscardSession(stuck: Stuck, f: Faults) returns (ok: bool)
      requires AllNameable(sessions)
      modifies this
      ensures State() == Discard(old(State()), stuck, f, tag)
      ensures ok ==> stuck.id !in sessions
      ensures ok <==> !f.deleteFails
                      && (stuck.hasBranch ==> !f.listFails && (f.gitFails ==> Needed(sessions, stuck.branch, tag)))
    {
      if f.deleteFails {
        if f.deletedAnyway {
          sessions := sessions - {stuck.id};
        }
        return false;
      }
      sessions := sessions - {stuck.id};
      assert sessions - {stuck.id} == sessions;
      if stuck.hasBranch {
        if f.listFails {
          return false;
        }
        var deletable := CanDeleteShadowBranch(stuck.branch, stuck.id);
        if deletable {
          if f.gitFails {
            if f.removedAnyway {
              branches := branches - {stuck.branch};
            }
            return false;
          }
          branches := branches - {stuck.branch};
        }
      }
      return true;
    }

    /** The first loop of the run: the stuck sessions among those listed. Reading the time of a session
        or naming its branch may stop the program. */
    method ClassifyAll(listing: seq<string>, now: int) returns (stuck: Option<seq<Stuck>>)
      requires IsListing(listing, sessions)
      ensures stuck.None? <==> SomeStopsRun(sessions)
      ensures stuck.Some? ==> stuck.value == StuckSessions(sessions, listing, branches, now, tag)
    {
      var found: seq<Stuck> := [];
      for i := 0 to |listing|
        invariant NoneStopsUpTo(sessions, listing, i)
        invariant found == StuckSessions(sessions, listing[..i], branches, now, tag)
      {
        var session := sessions[listing[i]];
        TimeStopsExactlyWhen(session);
        if TimeStops(session) || CutsAt(session.baseCommit, 7) {
          assert listing[i] in sessions;
          return None;
        }
        StuckStep(sessions, listing, i, branches, now, tag);
        var verdict := Verdict(listing[i], session, branches, now, tag);
        if verdict.Some? {
          found := found + [verdict.value];
        }
      }
      assert listing[..|listing|] == listing;
      NoListedStops(sessions, listing);
      return Some(found);
    }

    /** The second loop: a failure does not end it. */
    method RepairAll(stuck: seq<Stuck>, turns: seq<Turn>, canCondense: bool)
      requires |turns| == |stuck| && TurnsNameable(turns) && AllNameable(sessions)
      modifies this
      ensures State() == Repair(old(State()), stuck, turns, canCondense, tag)
    {
      for i := 0 to |stuck|
        invariant AllNameable(sessions)
        invariant Repair(State(), stuck[i..], turns[i..], canCondense, tag) == Repair(old(State()), stuck, turns, canCondense, tag)
      {
        assert stuck[i..][1..] == stuck[i + 1..] && turns[i..][1..] == turns[i + 1..];
        assert stuck[i..][0] == stuck[i] && turns[i..][0] == turns[i];
        if canCondense && stuck[i].hasBranch && stuck[i].checkpointCount > 0 {
          sessions, branches := turns[i].condensed.sessions, turns[i].condensed.branches;
        } else {
          var _ := DiscardSession(stuck[i], turns[i].faults);
        }
      }
    }

    /** The forced run. `listing` is what the store lists, in its own order; `turns` says what the
        environment does at each stuck session. When the program stops it has touched nothing. */
    method RunForced(listing: seq<string>, now: int, canCondense: bool, turns: seq<Turn>)
      returns (stopped: bool, ghost queue: seq<Stuck>)
      requires IsListing(listing, sessions)
      requires |turns| == |listing| && TurnsNameable(turns)
      modifies this
      ensures stopped <==> SomeStopsRun(old(sessions))
      ensures stopped ==> State() == old(State())
      ensures !stopped ==> queue == StuckSessions(old(sessions), listing, old(branches), now, tag)
      ensures !stopped ==> State() == Repair(old(State()), queue, turns[..|queue|], canCondense, tag)
    {
      var stuck := ClassifyAll(listing, now);
      if stuck.None? {
        return true, [];
      }
      NameableUnlessStopped(sessions);
      RepairAll(stuck.value, turns[..|stuck.value|], canCondense);
      return false, stuck.value;
    }
  }

  /** The stuck sessions of a listing, in its order. */
  ghost function StuckSessions(sessions: map<string, Session>, listing: seq<string>, branches: set<string>,
                               now: int, tag: Tag): (queue: seq<Stuck>)
    requires forall i :: 0 <= i < |listing| ==> listing[i] in sessions
    ensures |queue| <= |listing|
  {
    if listing == [] then []
    else
      var last := listing[|listing| - 1];
      var verdict := Verdict(last, sessions[last], branches, now, tag);
      StuckSessions(sessions, listing[..|listing| - 1], branches, now, tag)
      + if verdict.Some? then [verdict.value] else []
  }

  ghost predicate SomeStopsRun(sessions: map<string, Session>) {
    exists id :: id in sessions && StopsRun(sessions[id])
  }

  ghost predicate NoneStopsUpTo(sessions: map<string, Session>, listing: seq<string>, n: nat)
    requires n <= |listing| && forall k :: 0 <= k < |listing| ==> listing[k] in sessions
  {
    forall k :: 0 <= k < n ==> !StopsRun(sessions[listing[k]])
  }

  lemma NoListedStops(sessions: map<string, Session>, listing: seq<string>)
    requires IsListing(listing, sessions) && NoneStopsUpTo(sessions, listing, |listing|)
    ensures !SomeStopsRun(sessions)
  {
    forall id | id in sessions ensures !StopsRun(sessions[id]) {
      var k :| 0 <= k < |listing| && listing[k] == id;
    }
  }

  /** A run that does not stop can name every branch. */
  lemma NameableUnlessStopped(sessions: map<string, Session>)
    requires !SomeStopsRun(sessions)
    ensures AllNameable(sessions)
  {
    forall id | id in sessions ensures Nameable(sessions[id]) {
      assert !StopsRun(sessions[id]);
    }
  }

  // ---- A session for each cause of a stop ----

  lemma AsciiNameable(s: Session)
    requires IsAscii(s.baseCommit)
    ensures Nameable(s)
  {
    EncodeAscii(s.baseCommit);
    CutsInside(s.baseCommit, 7);
  }

  lemma CutSeventhByte(front: string, c: char)
    requires |front| == 6 && IsAscii(front) && c >= '\U{80}'
    ensures CutsAt(front + [c], 7)
  {
    EncodeAscii(front);
    EncodeConcat(front, [c]);
    EncodeCons(c, []);
    assert [c] + [] == [c];
    TailsOfChar(c);
    CutsInside(front + [c], 7);
  }

  /** An accented letter across the seventh byte of the commit. */
  lemma CutNameStops(s: Session)
    requires s.baseCommit == "abcdef\U{E9}"
    ensures StopsRun(s)
  {
    var commit := s.baseCommit;
    CutSeventhByte(commit[..6], commit[6]);
    assert commit == commit[..6] + [commit[6]];
  }

  /** A time of 2^63 seconds, whatever plain commit goes with it. */
  lemma HugeTimeStops(s: Session, seconds: nat)
    requires seconds == 9_223_372_036_854_775_808
    requires IsAscii(s.baseCommit) && s.lastInteraction == Some(PrintNat(seconds))
    ensures StopsRun(s) && Nameable(s)
  {
    FirstHugeNumberStops(seconds);
    TimeStopsExactlyWhen(s);
    AsciiNameable(s);
  }

  lemma YearDigits(n: nat)
    requires n == 2024
    ensures Padded(n, 4) == "2024"
  {
    assert n / 10 == 202 && n / 100 == 20 && n / 1000 == 2;
  }

  lemma FirstDigits(n: nat)
    requires n == 1
    ensures Padded(n, 2) == "01"
  {
  }

  lemma NewYear(d: Date)
    requires d == Date(2024, 1, 1)
    ensures PrintDate(d) == "2024-01-01"
  {
    YearDigits(d.year);
    FirstDigits(d.month);
  }

  lemma Midnight(t: Timestamp)
    requires t.hour == t.minute == t.second == 0 && t.fraction == []
    ensures PrintClock(t) == "00:00:00"
  {
    assert Padded(0, 2) == "00";
  }

  lemma Assembled(date: string, clock: string, c: char, text: string)
    requires date == "2024-01-01" && clock == "00:00:00" && c == '\U{E9}'
    requires text == "2024-01-01T00:00:00+1\U{E9}00"
    ensures text == date + ['T'] + (clock + ['+'] + (['1', c] + "00"))
    ensures IsTrimmed(text)
  {
  }

  lemma CutOffsetText(text: string, t: Timestamp, c: char)
    requires text == "2024-01-01T00:00:00+1\U{E9}00" && c == '\U{E9}'
    requires t == Timestamp(Date(2024, 1, 1), 0, 0, 0, [], Zulu)
    ensures IsTrimmed(text) && ParseRfc3339(text) == SliceFault
  {
    NewYear(t.date);
    Midnight(t);
    SplitCharacterFaults(t, '1', c, "00");
    Assembled(PrintDate(t.date), PrintClock(t), c, text);
  }

  /** An accented letter in the offset of a time, whatever plain commit goes with it. */
  lemma CutOffsetStops(s: Session)
    requires IsAscii(s.baseCommit) && s.lastInteraction == Some("2024-01-01T00:00:00+1\U{E9}00")
    ensures StopsRun(s) && Nameable(s)
  {
    var text := s.lastInteraction.value;
    CutOffsetText(text, Timestamp(Date(2024, 1, 1), 0, 0, 0, [], Zulu), '\U{E9}');
    FaultsExactlyWhen(text);
    TrimIsTrimmed(text);
    AsciiNameable(s);
  }

  lemma StuckStep(sessions: map<string, Session>, listing: seq<string>, i: nat, branches: set<string>, now: int, tag: Tag)
    requires i < |listing| && forall k :: 0 <= k < |listing| ==> listing[k] in sessions
    ensures var verdict := Verdict(listing[i], sessions[listing[i]], branches, now, tag);
            StuckSessions(sessions, listing[..i + 1], branches, now, tag) ==
            StuckSessions(sessions, listing[..i], branches, now, tag) + if verdict.Some? then [verdict.value] else []
  {
    assert listing[..i + 1][..i] == listing[..i];
  }

  /** The session goes unless its deletion fails without effect, no other does, and the branch goes
      exactly when it is there, the deletion succeeds, no remaining session with pending steps names
      it and git removes it. */
  lemma DiscardEffect(w: World, stuck: Stuck, f: Faults, tag: Tag, id: string, b: string)
    ensures var next := Discard(w, stuck, f, tag);
            && (id in next.sessions <==> id in w.sessions && !(id == stuck.id && (!f.deleteFails || f.deletedAnyway)))
            && (id in next.sessions ==> next.sessions[id] == w.sessions[id])
            && (b in next.branches <==>
                 b in w.branches && !(b == stuck.branch && stuck.hasBranch && !f.deleteFails && !f.listFails
                   && (forall other :: other in next.sessions && next.sessions[other].stepCount > 0 ==>
                        ShadowBranch(next.sessions[other], tag) != b)
                   && (f.gitFails ==> f.removedAnyway)))
  {
  }

  // ---- The name of a branch ----

  /** Two sessions share a branch exactly when their commits agree in the first seven bytes and their
      worktrees have one tag; sessions without a commit share the empty name. */
  lemma SharedBranchIff(s: Session, t: Session, tag: Tag)
    requires Nameable(s) && Nameable(t)
    requires |tag(s.worktreeId)| == |tag(t.worktreeId)| == 6
    ensures ShadowBranch(s, tag) == ShadowBranch(t, tag) <==>
            (s.baseCommit == [] <==> t.baseCommit == [])
            && (s.baseCommit != [] ==>
                 FirstBytes(s.baseCommit, 7) == FirstBytes(t.baseCommit, 7) && tag(s.worktreeId) == tag(t.worktreeId))
  {
    TakesBytes(s.baseCommit, 7);
    TakesBytes(t.baseCommit, 7);
    DecodeEncoded(TakeBytes(s.baseCommit, 7));
    DecodeEncoded(TakeBytes(t.baseCommit, 7));
    if s.baseCommit != [] && t.baseCommit != [] {
      NamePartsIff(TakeBytes(s.baseCommit, 7), TakeBytes(t.baseCommit, 7), tag(s.worktreeId), tag(t.worktreeId));
    }
  }

  lemma {:induction false} TakeAscii(s: string, n: nat)
    requires IsAscii(s) && n <= |s|
    ensures TakeBytes(s, n) == s[..n]
  {
    if n > 0 {
      TakeAscii(s[1..], n - 1);
    }
  }

  /** The branch of a commit in plain letters is `bitloops/`, seven of them, a dash and the tag. */
  lemma PlainBranchName(s: Session, tag: Tag)
    requires IsAscii(s.baseCommit) && |s.baseCommit| >= 7
    ensures ShadowBranch(s, tag) == "bitloops/" + s.baseCommit[..7] + "-" + tag(s.worktreeId)
  {
    TakeAscii(s.baseCommit, 7);
  }

  function FirstBytes(s: string, n: nat): seq<Byte> {
    var b := Encode(s);
    b[..if |b| < n then |b| else n]
  }

  lemma NamePartsIff(a: string, b: string, x: string, y: string)
    requires |x| == |y|
    ensures BRANCH_PREFIX + a + "-" + x == BRANCH_PREFIX + b + "-" + y <==> a == b && x == y
  {
    var m, n := BRANCH_PREFIX + a + "-" + x, BRANCH_PREFIX + b + "-" + y;
    var p := |BRANCH_PREFIX|;
    assert m[p..p + |a|] == a && m[p + |a| + 1..] == x;
    assert n[p..p + |b|] == b && n[p + |b| + 1..] == y;
  }

  // ---- Safety over every run ----

  /** The store only shrinks. */
  ghost predicate Shrunk(before: World, after: World) {
    && after.branches <= before.branches
    && forall id :: id in after.sessions ==> id in before.sessions && after.sessions[id] == before.sessions[id]
  }

  /** Whatever goes wrong, no run of discards deletes a branch on which a surviving session with
      pending steps stands. Every state a run passes through is the end of a shorter run. */
  lemma {:induction false} SurvivorsKeepTheirBranches(w: World, queue: seq<Stuck>, faults: seq<Faults>, tag: Tag)
    requires |faults| == |queue|
    ensures var end := DiscardAll(w, queue, faults, tag);
            && Shrunk(w, end)
            && forall b :: b in w.branches && Needed(end.sessions, b, tag) ==> b in end.branches
    decreases queue
  {
    if queue != [] {
      var next := Discard(w, queue[0], faults[0], tag);
      SurvivorsKeepTheirBranches(next, queue[1..], faults[1..], tag);
      var end := DiscardAll(next, queue[1..], faults[1..], tag);
      forall b | b in w.branches && Needed(end.sessions, b, tag) ensures b in end.branches {
        NeededIsMonotone(end.sessions, next.sessions, b, tag);
        assert b in next.branches;
      }
    }
  }

  /** No branch that a session still needs afterwards has been deleted, and none has come to be needed. */
  ghost predicate Protects(before: World, after: World, tag: Tag) {
    forall b :: Needed(after.sessions, b, tag) ==>
      Needed(before.sessions, b, tag) && (b in before.branches ==> b in after.branches)
  }

  /** A discard protects every branch, whatever goes wrong. */
  lemma DiscardProtects(w: World, stuck: Stuck, f: Faults, tag: Tag)
    ensures Protects(w, Discard(w, stuck, f, tag), tag)
  {
    var next := Discard(w, stuck, f, tag);
    forall b | Needed(next.sessions, b, tag)
      ensures Needed(w.sessions, b, tag) && (b in w.branches ==> b in next.branches)
    {
      NeededIsMonotone(next.sessions, w.sessions, b, tag);
    }
  }

  /** Every condensing of the run protects the branches. */
  ghost predicate CondensingProtects(w: World, queue: seq<Stuck>, turns: seq<Turn>, canCondense: bool, tag: Tag)
    requires |turns| == |queue|
    decreases queue
  {
    queue == [] ||
    (var next := RepairOne(w, queue[0], turns[0], canCondense, tag);
     (Condenses(queue[0], canCondense) ==> Protects(w, next, tag))
     && CondensingProtects(next, queue[1..], turns[1..], canCondense, tag))
  }

  /** So the whole forced loop protects the branches if condensing does. */
  lemma {:induction false} RepairProtects(w: World, queue: seq<Stuck>, turns: seq<Turn>, canCondense: bool, tag: Tag)
    requires |turns| == |queue| && CondensingProtects(w, queue, turns, canCondense, tag)
    ensures Protects(w, Repair(w, queue, turns, canCondense, tag), tag)
    decreases queue
  {
    if queue != [] {
      DiscardProtects(w, queue[0], turns[0].faults, tag);
      RepairProtects(RepairOne(w, queue[0], turns[0], canCondense, tag), queue[1..], turns[1..], canCondense, tag);
    }
  }

  function FaultsOf(turns: seq<Turn>): (f: seq<Faults>)
    ensures |f| == |turns|
  {
    seq(|turns|, i requires 0 <= i < |turns| => turns[i].faults)
  }

  /** Without a session to condense the forced loop is a run of discards. */
  lemma {:induction false} RepairIsDiscarding(w: World, queue: seq<Stuck>, turns: seq<Turn>, canCondense: bool, tag: Tag)
    requires |turns| == |queue| && forall i :: 0 <= i < |queue| ==> !Condenses(queue[i], canCondense)
    ensures Repair(w, queue, turns, canCondense, tag) == DiscardAll(w, queue, FaultsOf(turns), tag)
    decreases queue
  {
    if queue != [] {
      RepairIsDiscarding(Discard(w, queue[0], turns[0].faults, tag), queue[1..], turns[1..], canCondense, tag);
      assert FaultsOf(turns)[1..] == FaultsOf(turns[1..]);
    }
  }

  lemma NeededIsMonotone(small: map<string, Session>, big: map<string, Session>, branch: string, tag: Tag)
    requires forall id :: id in small ==> id in big && big[id] == small[id]
    requires Needed(small, branch, tag)
    ensures Needed(big, branch, tag)
  {
    var id :| id in small && small[id].stepCount != 0 && ShadowBranch(small[id], tag) == branch;
    assert id in big;
  }

  // ---- Failure-free runs ----

  /** The branches that go when the sessions `gone` do. */
  ghost function Released(w: World, gone: set<string>, tag: Tag): set<string>
    requires gone <= w.sessions.Keys
  {
    set b | b in w.branches && BRANCH_PREFIX <= b
            && (exists id :: id in gone && ShadowBranch(w.sessions[id], tag) == b)
            && !Needed(w.sessions - gone, b, tag)
  }

  function NoFaults(n: nat): (f: seq<Faults>)
    ensures |f| == n
  {
    seq(n, i => NO_FAULTS)
  }

  /** The queue describes sessions of `w` as classification finds them. */
  ghost predicate Describes(queue: seq<Stuck>, w: World, tag: Tag) {
    forall i :: 0 <= i < |queue| ==>
      && queue[i].id in w.sessions
      && queue[i].branch == ShadowBranch(w.sessions[queue[i].id], tag)
      && queue[i].hasBranch == Listed(queue[i].branch, w.branches)
      && queue[i].checkpointCount == AsI32(w.sessions[queue[i].id].stepCount)
  }

  ghost function Ids(queue: seq<Stuck>): set<string> {
    set i | 0 <= i < |queue| :: queue[i].id
  }

  ghost function After(w: World, gone: set<string>, tag: Tag): World
    requires gone <= w.sessions.Keys
  {
    World(w.sessions - gone, w.branches - Released(w, gone, tag))
  }

  lemma OneMoreDiscard(w: World, gone: set<string>, s: Stuck, tag: Tag)
    requires gone <= w.sessions.Keys && s.id in w.sessions
    requires s.branch == ShadowBranch(w.sessions[s.id], tag) && s.hasBranch == Listed(s.branch, w.branches)
    ensures Discard(After(w, gone, tag), s, NO_FAULTS, tag) == After(w, gone + {s.id}, tag)
  {
    var rest := w.sessions - gone - {s.id};
    assert rest == w.sessions - (gone + {s.id});
    forall b | b != s.branch ensures Needed(w.sessions - gone, b, tag) <==> Needed(rest, b, tag) {
      if Needed(w.sessions - gone, b, tag) {
        var id :| id in w.sessions - gone && w.sessions[id].stepCount != 0 && ShadowBranch(w.sessions[id], tag) == b;
        assert id in rest;
      }
      if Needed(rest, b, tag) {
        NeededIsMonotone(rest, w.sessions - gone, b, tag);
      }
    }
    if Needed(rest, s.branch, tag) {
      NeededIsMonotone(rest, w.sessions - gone, s.branch, tag);
    }
    assert s.id in gone + {s.id};
    assert Discard(After(w, gone, tag), s, NO_FAULTS, tag).branches == After(w, gone + {s.id}, tag).branches;
  }

  lemma {:induction false} DiscardsFrom(w: World, gone: set<string>, queue: seq<Stuck>, tag: Tag)
    requires gone <= w.sessions.Keys && Describes(queue, w, tag)
    ensures Ids(queue) <= w.sessions.Keys
    ensures DiscardAll(After(w, gone, tag), queue, NoFaults(|queue|), tag) == After(w, gone + Ids(queue), tag)
    decreases queue
  {
    if queue == [] {
      assert gone + Ids(queue) == gone;
    } else {
      OneMoreDiscard(w, gone, queue[0], tag);
      DiscardsFrom(w, gone + {queue[0].id}, queue[1..], tag);
      assert NoFaults(|queue|)[1..] == NoFaults(|queue[1..]|);
      assert Ids(queue) == {queue[0].id} + Ids(queue[1..]) by {
        forall i | 1 <= i < |queue| ensures queue[i].id in Ids(queue[1..]) {
          assert queue[1..][i - 1] == queue[i];
        }
      }
      assert gone + Ids(queue) == gone + {queue[0].id} + Ids(queue[1..]);
    }
  }

  /** A failure-free run removes exactly the queued sessions, and exactly those of their branches on
      which no surviving session with pending steps stands. */
  lemma FailureFreeRun(w: World, queue: seq<Stuck>, tag: Tag)
    requires Describes(queue, w, tag)
    ensures Ids(queue) <= w.sessions.Keys
    ensures DiscardAll(w, queue, NoFaults(|queue|), tag) == After(w, Ids(queue), tag)
  {
    assert After(w, {}, tag) == w by {
      assert w.sessions - {} == w.sessions;
      assert Released(w, {}, tag) == {};
    }
    DiscardsFrom(w, {}, queue, tag);
    assert {} + Ids(queue) == Ids(queue);
  }

  /** The order of a failure-free run does not matter. */
  lemma OrderIsIrrelevant(w: World, q: seq<Stuck>, r: seq<Stuck>, tag: Tag)
    requires Describes(q, w, tag) && Describes(r, w, tag) && Ids(q) == Ids(r)
    ensures DiscardAll(w, q, NoFaults(|q|), tag) == DiscardAll(w, r, NoFaults(|r|), tag)
  {
    FailureFreeRun(w, q, tag);
    FailureFreeRun(w, r, tag);
  }

  /** The branch of a discarded session survives exactly when a surviving session needs it. */
  lemma DiscardedBranchSurvivesIffNeeded(w: World, queue: seq<Stuck>, k: nat, tag: Tag)
    requires Describes(queue, w, tag) && k < |queue| && queue[k].hasBranch
    ensures var end := DiscardAll(w, queue, NoFaults(|queue|), tag);
            queue[k].branch in end.branches <==> Needed(end.sessions, queue[k].branch, tag)
  {
    FailureFreeRun(w, queue, tag);
    assert queue[k].id in Ids(queue);
  }

  // ---- The whole forced run ----

  ghost predicate IsStuck(w: World, id: string, now: int, tag: Tag)
    requires id in w.sessions
  {
    Verdict(id, w.sessions[id], w.branches, now, tag).Some?
  }

  /** An idle session is never stuck; an active one is unless a readable time says that it spoke in
      the last hour or is yet to speak; an ended one is when its branch exists and its steps, whose
      count turns negative from 2^31 on, are pending. */
  lemma StuckExactlyWhen(w: World, id: string, now: int, tag: Tag)
    requires id in w.sessions && w.sessions[id].stepCount < 0x1_0000_0000
    ensures var s := w.sessions[id];
            IsStuck(w, id, now, tag) <==>
            || (s.phase.Active? && !(s.lastInteraction.Some? && SpokeSince(s.lastInteraction.value, now - 3_600_000_000_000)))
            || (s.phase.Ended? && 0 < s.stepCount < 0x8000_0000 && ShadowBranch(s, tag) in w.branches
                && s.baseCommit != [])
  {
    BranchUnderPrefix(w.sessions[id], w.branches, tag);
  }

  /** The text is a time, and not before `limit`. */
  predicate SpokeSince(text: string, limit: int) {
    var time := ParseTimeString(text);
    time.Instant? && time.seconds * 1_000_000_000 >= limit
  }

  /** An active session with a timestamp of RFC 3339, whatever its offset, is stuck exactly when the
      second it names lies before the epoch or more than an hour back. */
  lemma TimestampedSessionStuckIff(w: World, id: string, t: Timestamp, now: int, tag: Tag)
    requires id in w.sessions && w.sessions[id].phase.Active? && WellFormed(t)
    requires w.sessions[id].lastInteraction == Some(Print(t))
    ensures IsStuck(w, id, now, tag) <==>
            SecondsSinceEpoch(t) < 0 || SecondsSinceEpoch(t) * 1_000_000_000 < now - 3_600_000_000_000
  {
    PaddedTimestampParses([], t, []);
    NothingAround(Print(t));
  }

  lemma BranchUnderPrefix(s: Session, branches: set<string>, tag: Tag)
    ensures Listed(ShadowBranch(s, tag), branches) <==> s.baseCommit != [] && ShadowBranch(s, tag) in branches
  {
    if s.baseCommit != [] {
      var branch := ShadowBranch(s, tag);
      assert branch[..|BRANCH_PREFIX|] == BRANCH_PREFIX;
    }
  }

  lemma EntryIsCondensedIff(entry: Stuck, s: Session, branches: set<string>, canCondense: bool, tag: Tag)
    requires entry.checkpointCount == AsI32(s.stepCount) && s.stepCount < 0x1_0000_0000
    requires entry.hasBranch == Listed(ShadowBranch(s, tag), branches)
    ensures Condenses(entry, canCondense) <==>
            canCondense && 0 < s.stepCount < 0x8000_0000 && s.baseCommit != [] && ShadowBranch(s, tag) in branches
  {
    BranchUnderPrefix(s, branches, tag);
  }

  /** In a forced run a stuck session is condensed exactly when the strategy can, fewer than 2^31 steps
      are pending but some are, and its branch exists; then the discard failures do not matter. Every
      other stuck session is discarded. */
  lemma CondensedExactlyWhen(w: World, listing: seq<string>, now: int, tag: Tag, i: nat,
                             present: World, turn: Turn, canCondense: bool)
    requires forall k :: 0 <= k < |listing| ==> listing[k] in w.sessions
    requires i < |StuckSessions(w.sessions, listing, w.branches, now, tag)|
    ensures var entry := StuckSessions(w.sessions, listing, w.branches, now, tag)[i];
            && entry.id in w.sessions
            && var s := w.sessions[entry.id];
               s.stepCount < 0x1_0000_0000 ==>
                 RepairOne(present, entry, turn, canCondense, tag) ==
                 if canCondense && 0 < s.stepCount < 0x8000_0000 && s.baseCommit != [] && ShadowBranch(s, tag) in w.branches
                 then turn.condensed
                 else Discard(present, entry, turn.faults, tag)
  {
    StuckSessionsDescribe(w, listing, now, tag);
    var entry := StuckSessions(w.sessions, listing, w.branches, now, tag)[i];
    var s := w.sessions[entry.id];
    if s.stepCount < 0x1_0000_0000 {
      EntryIsCondensedIff(entry, s, w.branches, canCondense, tag);
    }
  }

  lemma IdsAppend(queue: seq<Stuck>, s: Stuck)
    ensures Ids(queue + [s]) == Ids(queue) + {s.id}
  {
    var longer := queue + [s];
    assert longer[|queue|] == s;
    forall i | 0 <= i < |queue| ensures queue[i].id in Ids(longer) {
      assert longer[i] == queue[i];
    }
  }

  lemma DescribesAppend(queue: seq<Stuck>, s: Stuck, w: World, tag: Tag)
    requires Describes(queue, w, tag) && Describes([s], w, tag)
    ensures Describes(queue + [s], w, tag)
  {
    assert [s][0] == s;
  }

  lemma VerdictDescribes(w: World, id: string, now: int, tag: Tag)
    requires id in w.sessions
    ensures var verdict := Verdict(id, w.sessions[id], w.branches, now, tag);
            verdict.Some? ==> verdict.value.id == id && Describes([verdict.value], w, tag)
  {
  }

  lemma {:induction false} StuckSessionsDescribe(w: World, listing: seq<string>, now: int, tag: Tag)
    requires forall i :: 0 <= i < |listing| ==> listing[i] in w.sessions
    ensures Describes(StuckSessions(w.sessions, listing, w.branches, now, tag), w, tag)
    ensures forall id :: id in Ids(StuckSessions(w.sessions, listing, w.branches, now, tag)) <==>
              id in listing && IsStuck(w, id, now, tag)
  {
    if listing != [] {
      var front, last := listing[..|listing| - 1], listing[|listing| - 1];
      StuckSessionsDescribe(w, front, now, tag);
      FrontAndLast(listing);
      var q := StuckSessions(w.sessions, front, w.branches, now, tag);
      var verdict := Verdict(last, w.sessions[last], w.branches, now, tag);
      if verdict.Some? {
        VerdictDescribes(w, last, now, tag);
        DescribesAppend(q, verdict.value, w, tag);
        IdsAppend(q, verdict.value);
      } else {
        assert StuckSessions(w.sessions, listing, w.branches, now, tag) == q;
      }
    }
  }

  ghost function StuckIn(w: World, now: int, tag: Tag): string -> bool {
    (id: string) => id in w.sessions && IsStuck(w, id, now, tag)
  }

  function IdsInOrder(queue: seq<Stuck>): (ids: seq<string>)
    ensures |ids| == |queue| && forall i :: 0 <= i < |queue| ==> ids[i] == queue[i].id
  {
    seq(|queue|, i requires 0 <= i < |queue| => queue[i].id)
  }

  lemma OneMoreListed(front: seq<string>, last: string, keep: string -> bool, queue: seq<Stuck>, verdict: Option<Stuck>)
    requires IdsInOrder(queue) == Filter(front, keep)
    requires verdict.Some? <==> keep(last)
    requires verdict.Some? ==> verdict.value.id == last
    ensures IdsInOrder(queue + if verdict.Some? then [verdict.value] else []) == Filter(front + [last], keep)
  {
    FilterConcat(front, [last], keep);
    assert Filter([last], keep) == if keep(last) then [last] else [];
  }

  lemma LastOfQueue(w: World, listing: seq<string>, now: int, tag: Tag, stuck: string -> bool) returns (verdict: Option<Stuck>)
    requires stuck == StuckIn(w, now, tag)
    requires listing != [] && forall i :: 0 <= i < |listing| ==> listing[i] in w.sessions
    ensures var front, last := listing[..|listing| - 1], listing[|listing| - 1];
            && StuckSessions(w.sessions, listing, w.branches, now, tag) ==
               StuckSessions(w.sessions, front, w.branches, now, tag) + (if verdict.Some? then [verdict.value] else [])
            && (verdict.Some? <==> stuck(last)) && (verdict.Some? ==> verdict.value.id == last)
  {
    var last := listing[|listing| - 1];
    verdict := Verdict(last, w.sessions[last], w.branches, now, tag);
  }

  lemma FrontAndLast(listing: seq<string>)
    requires listing != []
    ensures listing == listing[..|listing| - 1] + [listing[|listing| - 1]]
  {
  }

  lemma {:induction false} QueueIsFiltered(w: World, listing: seq<string>, now: int, tag: Tag, stuck: string -> bool)
    requires stuck == StuckIn(w, now, tag) && forall i :: 0 <= i < |listing| ==> listing[i] in w.sessions
    ensures IdsInOrder(StuckSessions(w.sessions, listing, w.branches, now, tag)) == Filter(listing, stuck)
    decreases listing
  {
    if listing != [] {
      var front, last := listing[..|listing| - 1], listing[|listing| - 1];
      QueueIsFiltered(w, front, now, tag, stuck);
      var verdict := LastOfQueue(w, listing, now, tag, stuck);
      FrontAndLast(listing);
      OneMoreListed(front, last, stuck, StuckSessions(w.sessions, front, w.branches, now, tag), verdict);
    }
  }

  /** The queue holds the stuck ones in the order of the listing, each as often as it is listed. */
  lemma StuckInListedOrder(w: World, listing: seq<string>, now: int, tag: Tag)
    requires forall i :: 0 <= i < |listing| ==> listing[i] in w.sessions
    ensures IdsInOrder(StuckSessions(w.sessions, listing, w.branches, now, tag)) == Filter(listing, StuckIn(w, now, tag))
  {
    QueueIsFiltered(w, listing, now, tag, StuckIn(w, now, tag));
  }

  /** The forced loop works through its queue in order: a longer queue is its front and then its rest. */
  lemma {:induction false} RepairConcat(w: World, a: seq<Stuck>, b: seq<Stuck>, s: seq<Turn>, t: seq<Turn>,
                                        canCondense: bool, tag: Tag)
    requires |s| == |a| && |t| == |b|
    ensures Repair(w, a + b, s + t, canCondense, tag) == Repair(Repair(w, a, s, canCondense, tag), b, t, canCondense, tag)
    decreases a
  {
    if a == [] {
      assert a + b == b && s + t == t;
    } else {
      assert (a + b)[1..] == a[1..] + b && (s + t)[1..] == s[1..] + t;
      RepairConcat(RepairOne(w, a[0], s[0], canCondense, tag), a[1..], b, s[1..], t, canCondense, tag);
    }
  }

  /** A forced run over the whole store that condenses nothing and meets no failure leaves exactly the
      sessions that are not stuck, whatever order they are listed in. */
  lemma ForcedRunOutcome(w: World, listing: seq<string>, now: int, canCondense: bool, turns: seq<Turn>, tag: Tag)
    requires IsListing(listing, w.sessions)
    requires var queue := StuckSessions(w.sessions, listing, w.branches, now, tag);
             && |turns| == |queue| && FaultsOf(turns) == NoFaults(|queue|)
             && forall i :: 0 <= i < |queue| ==> !Condenses(queue[i], canCondense)
    ensures var queue := StuckSessions(w.sessions, listing, w.branches, now, tag);
            var stuck := set id | id in w.sessions && IsStuck(w, id, now, tag);
            Repair(w, queue, turns, canCondense, tag) == After(w, stuck, tag)
  {
    var queue := StuckSessions(w.sessions, listing, w.branches, now, tag);
    StuckSessionsDescribe(w, listing, now, tag);
    RepairIsDiscarding(w, queue, turns, canCondense, tag);
    FailureFreeRun(w, queue, tag);
    assert Ids(queue) == set id | id in w.sessions && IsStuck(w, id, now, tag);
  }
}
