/** The versioned refresh protocol of the editor extension's code lenses. An asynchronous refresh is
    two atomic steps around its await, three when it stops to show an error; requests of one document
    interleave in any way. */
module CodeLens {
  import opened Options

  type Key = string

  /** A request is known by its document and version. */
  type Request = (Key, nat)

  /** The provider's three fields, and the requests that wait for an answer or for the user. */
  datatype State<D> = State(cache: map<Key, D>, inFlight: set<Key>, versions: map<Key, nat>,
                            loading: set<Request>, reporting: set<Request>)

  datatype Event<D> =
    | Begin(key: Key)                                      // a refresh up to its await
    | Outside(key: Key)                                    // a refresh of a document without workspace
    | Loaded(key: Key, version: nat, data: D)              // the answer arrives
    | Failed(key: Key, version: nat, interactive: bool)    // the request fails
    | Dismissed(key: Key, version: nat)                    // the user closes the error message
    | Clear

  function Start<D>(): State<D> {
    State(map[], {}, map[], {}, {})
  }

  /** The latest version handed out for a document. */
  function Version<D>(s: State<D>, key: Key): nat {
    if key in s.versions then s.versions[key] else 0
  }

  predicate Enabled<D>(s: State<D>, e: Event<D>) {
    match e
    case Loaded(k, v, _) => (k, v) in s.loading
    case Failed(k, v, _) => (k, v) in s.loading
    case Dismissed(k, v) => (k, v) in s.reporting
    case _ => true
  }

  function Step<D>(s: State<D>, e: Event<D>): State<D> {
    match e
    case Begin(k) =>
      var v := Version(s, k) + 1;
      s.(versions := s.versions[k := v], inFlight := s.inFlight + {k}, loading := s.loading + {(k, v)})
    case Outside(k) => s.(cache := s.cache - {k})
    case Loaded(k, v, d) =>
      s.(cache := if v == Version(s, k) then s.cache[k := d] else s.cache,
         inFlight := s.inFlight - {k}, loading := s.loading - {(k, v)})
    case Failed(k, v, interactive) =>
      if v == Version(s, k) && interactive then
        s.(cache := s.cache - {k}, loading := s.loading - {(k, v)}, reporting := s.reporting + {(k, v)})
      else
        s.(cache := if v == Version(s, k) then s.cache - {k} else s.cache,
           inFlight := s.inFlight - {k}, loading := s.loading - {(k, v)})
    case Dismissed(k, v) => s.(inFlight := s.inFlight - {k}, reporting := s.reporting - {(k, v)})
    case Clear => s.(cache := map[], inFlight := {})
  }

  class Provider<D(==)> {
    var cache: map<Key, D>
    var inFlight: set<Key>
    var requestVersions: map<Key, nat>
    ghost var loading: set<Request>
    ghost var reporting: set<Request>

    ghost function Now(): State<D>
      reads this
    {
      State(cache, inFlight, requestVersions, loading, reporting)
    }

    constructor ()
      ensures Now() == Start()
    {
      cache, inFlight, requestVersions, loading, reporting := map[], {}, map[], {}, {};
    }

    function Latest(key: Key): (v: nat)
      reads this
      ensures v == Version(Now(), key)
    {
      if key in requestVersions then requestVersions[key] else 0
    }

    method ClearAll()
      modifies this
      ensures Now() == Step(old(Now()), Event<D>.Clear)
    {
      cache := map[];
      inFlight := {};
    }

    /** `refreshDocument` up to its await, or all of it when the document has no workspace. */
    method BeginRefresh(key: Key, inWorkspace: bool) returns (version: Option<nat>)
      modifies this
      ensures Now() == Step(old(Now()), if inWorkspace then Event<D>.Begin(key) else Event<D>.Outside(key))
      ensures version == if inWorkspace then Some(Version(Now(), key)) else None
    {
      if !inWorkspace {
        cache := cache - {key};
        return None;
      }
      var requestVersion := Latest(key) + 1;
      requestVersions := requestVersions[key := requestVersion];
      inFlight := inFlight + {key};
      loading := loading + {(key, requestVersion)};
      return Some(requestVersion);
    }

    /** The continuation behind the await, with the answer. */
    method ResumeLoaded(key: Key, requestVersion: nat, data: D)
      requires Enabled(Now(), Loaded(key, requestVersion, data))
      modifies this
      ensures Now() == Step(old(Now()), Loaded(key, requestVersion, data))
    {
      if Latest(key) == requestVersion {
        cache := cache[key := data];
      }
      loading := loading - {(key, requestVersion)};
      inFlight := inFlight - {key};
    }

    /** The continuation behind the await, with an error; `awaits` tells that a message is shown. */
    method ResumeFailed(key: Key, requestVersion: nat, interactive: bool) returns (awaits: bool)
      requires Enabled(Now(), Failed(key, requestVersion, interactive))
      modifies this
      ensures Now() == Step(old(Now()), Event<D>.Failed(key, requestVersion, interactive))
      ensures awaits <==> interactive && Version(Now(), key) == requestVersion
    {
      awaits := false;
      loading := loading - {(key, requestVersion)};
      if Latest(key) == requestVersion {
        cache := cache - {key};
        if interactive {
          reporting := reporting + {(key, requestVersion)};
          return true;
        }
      }
      inFlight := inFlight - {key};
    }

    method ResumeDismissed(key: Key, requestVersion: nat)
      requires Enabled(Now(), Event<D>.Dismissed(key, requestVersion))
      modifies this
      ensures Now() == Step(old(Now()), Event<D>.Dismissed(key, requestVersion))
    {
      reporting := reporting - {(key, requestVersion)};
      inFlight := inFlight - {key};
    }
  }

  // ---- Runs ----

  ghost predicate Possible<D>(s: State<D>, run: seq<Event<D>>)
    decreases run
  {
    run == [] || (Enabled(s, run[0]) && Possible(Step(s, run[0]), run[1..]))
  }

  function Run<D>(s: State<D>, run: seq<Event<D>>): State<D>
    decreases run
  {
    if run == [] then s else Run(Step(s, run[0]), run[1..])
  }

  /** A waiting request has a version that was handed out, and `inFlight` names only documents with a
      waiting request. */
  ghost predicate Consistent<D>(s: State<D>) {
    && (forall r :: r in s.loading || r in s.reporting ==> 1 <= r.1 <= Version(s, r.0))
    && (forall k :: k in s.inFlight ==> exists v :: (k, v) in s.loading || (k, v) in s.reporting)
  }

  lemma StepConsistent<D>(s: State<D>, e: Event<D>)
    requires Consistent(s) && Enabled(s, e)
    ensures Consistent(Step(s, e))
  {
    var t := Step(s, e);
    forall k | k in t.inFlight ensures exists v :: (k, v) in t.loading || (k, v) in t.reporting {
      if e.Begin? && k == e.key {
        assert (k, Version(t, k)) in t.loading;
      } else {
        var v :| (k, v) in s.loading || (k, v) in s.reporting;
        if e.Failed? && (k, v) == (e.key, e.version) {
          assert (k, v) in t.reporting;
        } else {
          assert (k, v) in t.loading || (k, v) in t.reporting;
        }
      }
    }
  }

  /** In every run, `inFlight` names only documents with a pending request. */
  lemma {:induction false} RunConsistent<D>(s: State<D>, run: seq<Event<D>>)
    requires Consistent(s) && Possible(s, run)
    ensures Consistent(Run(s, run))
    decreases run
  {
    if run != [] {
      StepConsistent(s, run[0]);
      RunConsistent(Step(s, run[0]), run[1..]);
    }
  }

  // ---- What `inFlight` does name ----

  /** The event takes `k` out of `inFlight`: a clear, or the end of any request of `k`. A failure of
      the latest request ends it only later when it is shown to the user. */
  predicate Ends<D>(s: State<D>, e: Event<D>, k: Key) {
    match e
    case Clear => true
    case Loaded(key, _, _) => key == k
    case Failed(key, v, interactive) => key == k && !(interactive && v == Version(s, key))
    case Dismissed(key, _) => key == k
    case _ => false
  }

  /** No event of the run from `i` on takes `k` out. */
  ghost predicate NoEndFrom<D>(s: State<D>, run: seq<Event<D>>, k: Key, i: nat) {
    forall j :: i <= j < |run| ==> !Ends(Run(s, run[..j]), run[j], k)
  }

  /** Some refresh of `k` has begun with no end of `k` behind it. */
  ghost predicate BeganLast<D>(s: State<D>, run: seq<Event<D>>, k: Key) {
    exists i :: 0 <= i < |run| && run[i] == Begin(k) && NoEndFrom(s, run, k, i + 1)
  }

  lemma RunBack<D>(s: State<D>, run: seq<Event<D>>)
    requires run != []
    ensures Run(s, run) == Step(Run(s, run[..|run| - 1]), run[|run| - 1])
  {
    var front, last := run[..|run| - 1], run[|run| - 1];
    assert run == front + [last];
    RunConcat(s, front, [last], "");
    assert [last][1..] == [];
  }

  lemma BeganLastForward<D>(s: State<D>, run: seq<Event<D>>, k: Key)
    requires run != [] && BeganLast(s, run, k) && run[|run| - 1] != Begin(k)
    ensures var front := run[..|run| - 1];
            BeganLast(s, front, k) && !Ends(Run(s, front), run[|run| - 1], k)
  {
    var n := |run| - 1;
    var front := run[..n];
    var i :| 0 <= i < |run| && run[i] == Begin(k) && NoEndFrom(s, run, k, i + 1);
    assert !Ends(Run(s, run[..n]), run[n], k);
    forall j | i + 1 <= j < n ensures !Ends(Run(s, front[..j]), front[j], k) {
      assert front[..j] == run[..j] && front[j] == run[j];
    }
    assert front[i] == Begin(k) && NoEndFrom(s, front, k, i + 1);
  }

  lemma BeganLastBackward<D>(s: State<D>, run: seq<Event<D>>, k: Key)
    requires run != []
    requires BeganLast(s, run[..|run| - 1], k) && !Ends(Run(s, run[..|run| - 1]), run[|run| - 1], k)
    ensures BeganLast(s, run, k)
  {
    var n := |run| - 1;
    var front := run[..n];
    var i :| 0 <= i < n && front[i] == Begin(k) && NoEndFrom(s, front, k, i + 1);
    forall j | i + 1 <= j < |run| ensures !Ends(Run(s, run[..j]), run[j], k) {
      if j < n {
        assert front[..j] == run[..j] && front[j] == run[j];
      }
    }
    assert run[i] == Begin(k) && NoEndFrom(s, run, k, i + 1);
  }

  /** One more event starts what began last, keeps it or ends it. */
  lemma BeganLastStep<D>(s: State<D>, run: seq<Event<D>>, k: Key)
    requires run != []
    ensures var front, last := run[..|run| - 1], run[|run| - 1];
            BeganLast(s, run, k) <==>
            last == Begin(k) || (BeganLast(s, front, k) && !Ends(Run(s, front), last, k))
  {
    var n := |run| - 1;
    if run[n] == Begin(k) {
      assert NoEndFrom(s, run, k, n + 1);
    } else if BeganLast(s, run, k) {
      BeganLastForward(s, run, k);
    } else if BeganLast(s, run[..n], k) && !Ends(Run(s, run[..n]), run[n], k) {
      BeganLastBackward(s, run, k);
    }
  }

  /** In every run `inFlight` names a document exactly when a refresh of it has begun and no request
      of it has ended since, and nothing was cleared. */
  lemma {:induction false} InFlightExactly<D>(run: seq<Event<D>>, k: Key)
    ensures k in Run(Start(), run).inFlight <==> BeganLast(Start(), run, k)
    decreases |run|
  {
    if run != [] {
      InFlightExactly(run[..|run| - 1], k);
      RunBack(Start(), run);
      BeganLastStep(Start(), run, k);
    }
  }

  /** A pending request is missing from `inFlight` exactly when some request of its document has ended,
      or everything was cleared, after the last refresh of the document began. */
  lemma PendingIsMissedIff<D>(run: seq<Event<D>>, k: Key, v: nat)
    requires Possible(Start(), run)
    requires (k, v) in Run(Start(), run).loading || (k, v) in Run(Start(), run).reporting
    ensures k !in Run(Start(), run).inFlight <==>
            exists j :: 0 <= j < |run| && Ends(Run(Start(), run[..j]), run[j], k) && Begin(k) !in run[j + 1..]
  {
    InFlightExactly(run, k);
    RunConsistent(Start(), run);
    VersionsCountBegins(Start(), run, k);
    var i := LastBegin(run, k);
    if k !in Run(Start(), run).inFlight {
      assert !NoEndFrom(Start(), run, k, i + 1);
      var j :| i + 1 <= j < |run| && Ends(Run(Start(), run[..j]), run[j], k);
      assert Begin(k) !in run[j + 1..] by {
        assert run[j + 1..] == run[i + 1..][j - i..];
      }
    }
    if j :| 0 <= j < |run| && Ends(Run(Start(), run[..j]), run[j], k) && Begin(k) !in run[j + 1..] {
      forall b | j < b < |run| ensures run[b] != Begin(k) {
        assert run[b] == run[j + 1..][b - j - 1];
      }
    }
  }

  lemma {:induction false} LastBegin<D>(run: seq<Event<D>>, k: Key) returns (i: nat)
    requires Begins(run, k) > 0
    ensures i < |run| && run[i] == Begin(k) && Begin(k) !in run[i + 1..]
  {
    if Begins(run[1..], k) > 0 {
      i := LastBegin(run[1..], k);
      i := i + 1;
      assert run[i + 1..] == run[1..][i..];
    } else {
      i := 0;
      NoBegins(run[1..], k);
    }
  }

  lemma {:induction false} NoBegins<D>(run: seq<Event<D>>, k: Key)
    requires Begins(run, k) == 0
    ensures Begin(k) !in run
  {
    if run != [] {
      NoBegins(run[1..], k);
    }
  }

  /** So an older request that ends hides a newer one that is still pending. */
  lemma InFlightMayMissPending<D>(k: Key, d: D)
    ensures var run := [Begin(k), Begin(k), Loaded(k, 1, d)];
            && Possible(Start(), run)
            && (k, 2) in Run(Start(), run).loading && k !in Run(Start(), run).inFlight
  {
    var s1 := Step(Start<D>(), Begin(k));
    var s2 := Step(s1, Begin(k));
    var s3 := Step(s2, Loaded(k, 1, d));
    var run := [Begin(k), Begin(k), Loaded(k, 1, d)];
    assert run[1..] == [Begin(k), Loaded(k, 1, d)] && run[1..][1..] == [Loaded(k, 1, d)] && run[1..][1..][1..] == [];
    assert Run(s2, run[1..][1..]) == Run(s3, []) == s3;
    assert Possible(s2, run[1..][1..]);
  }

  // ---- Older answers never override newer ones ----

  /** The event is an answer that changes what the cache holds for `k`. */
  predicate Touches<D>(s: State<D>, e: Event<D>, k: Key) {
    (e.Loaded? || e.Failed?) && e.key == k && e.version == Version(s, k)
  }

  /** The versions of the answers that change the cache of `k`, in the order of the run. */
  function Touched<D>(s: State<D>, run: seq<Event<D>>, k: Key): seq<nat>
    decreases run
  {
    if run == [] then []
    else (if Touches(s, run[0], k) then [run[0].version] else []) + Touched(Step(s, run[0]), run[1..], k)
  }

  /** The version is behind us: it was handed out and no answer to it is outstanding. */
  ghost predicate Settled<D>(s: State<D>, k: Key, v: nat) {
    v <= Version(s, k) && (k, v) !in s.loading
  }

  lemma {:induction false} TouchedAbove<D>(s: State<D>, run: seq<Event<D>>, k: Key, v: nat)
    requires Possible(s, run) && Settled(s, k, v)
    ensures forall i :: 0 <= i < |Touched(s, run, k)| ==> Touched(s, run, k)[i] > v
    decreases run
  {
    if run != [] {
      TouchedAbove(Step(s, run[0]), run[1..], k, v);
    }
  }

  /** In every run the versions that reach a document's cache, to fill it or to empty it after a
      failure, strictly increase. */
  lemma {:induction false} TouchedIncreases<D>(s: State<D>, run: seq<Event<D>>, k: Key)
    requires Possible(s, run)
    ensures forall i, j :: 0 <= i < j < |Touched(s, run, k)| ==> Touched(s, run, k)[i] < Touched(s, run, k)[j]
    decreases run
  {
    if run != [] {
      var next := Step(s, run[0]);
      TouchedIncreases(next, run[1..], k);
      if Touches(s, run[0], k) {
        TouchedAbove(next, run[1..], k, run[0].version);
      }
    }
  }

  /** Only such an answer, a clear, or a refresh outside the workspace changes a document's cache. */
  lemma OthersLeaveTheCache<D>(s: State<D>, e: Event<D>, k: Key)
    requires !Touches(s, e, k) && e != Clear && e != Outside(k)
    ensures k in Step(s, e).cache <==> k in s.cache
    ensures k in s.cache ==> Step(s, e).cache[k] == s.cache[k]
  {
  }

  /** A clear empties the cache of every document, and a refresh outside the workspace that of its own
      document only; neither takes a version or ends a request. */
  lemma ClearsTheCache<D>(s: State<D>, key: Key, k: Key)
    ensures Cached(Step(s, Event<D>.Clear), k) == None && k !in Step(s, Event<D>.Clear).inFlight
    ensures Cached(Step(s, Event<D>.Outside(key)), k) == if k == key then None else Cached(s, k)
    ensures forall e: Event<D> :: e == Clear || e == Outside(key) ==>
              Step(s, e).versions == s.versions && Step(s, e).loading == s.loading && Step(s, e).reporting == s.reporting
  {
  }

  /** A refresh that has begun may be answered or fail, and one whose failure is shown may be closed. */
  lemma EndsAreEnabled<D>(s: State<D>, e: Event<D>, d: D, interactive: bool)
    requires Enabled(s, e)
    ensures e.Begin? ==> var v := Version(Step(s, e), e.key);
              Enabled(Step(s, e), Loaded(e.key, v, d)) && Enabled(Step(s, e), Event<D>.Failed(e.key, v, interactive))
    ensures e.Failed? && e.interactive && e.version == Version(s, e.key) ==>
              Enabled(Step(s, e), Event<D>.Dismissed(e.key, e.version))
  {
  }

  /** A request is pending from its begin to its end, and no other event touches it. */
  lemma PendingSteps<D>(s: State<D>, e: Event<D>, r: Request)
    requires Enabled(s, e) && Consistent(s)
    ensures r in Step(s, e).loading <==>
            || (e.Begin? && r == (e.key, Version(s, e.key) + 1))
            || (r in s.loading && !((e.Loaded? || e.Failed?) && r == (e.key, e.version)))
    ensures r in Step(s, e).reporting <==>
            || (e.Failed? && e.interactive && r == (e.key, e.version) && r.1 == Version(s, r.0))
            || (r in s.reporting && !(e.Dismissed? && r == (e.key, e.version)))
  {
  }

  // ---- The last word ----

  function Cached<D>(s: State<D>, k: Key): Option<D> {
    if k in s.cache then Some(s.cache[k]) else None
  }

  function Begins<D>(run: seq<Event<D>>, k: Key): nat {
    if run == [] then 0 else (if run[0] == Begin(k) then 1 else 0) + Begins(run[1..], k)
  }

  /** Versions count the refreshes begun. */
  lemma {:induction false} VersionsCountBegins<D>(s: State<D>, run: seq<Event<D>>, k: Key)
    ensures Version(Run(s, run), k) == Version(s, k) + Begins(run, k)
    decreases run
  {
    if run != [] {
      VersionsCountBegins(Step(s, run[0]), run[1..], k);
    }
  }

  lemma {:induction false} RunConcat<D>(s: State<D>, a: seq<Event<D>>, b: seq<Event<D>>, k: Key)
    ensures Run(s, a + b) == Run(Run(s, a), b)
    ensures Possible(s, a + b) <==> Possible(s, a) && Possible(Run(s, a), b)
    ensures Begins(a + b, k) == Begins(a, k) + Begins(b, k)
    decreases a
  {
    if a == [] {
      assert a + b == b;
    } else {
      assert (a + b)[1..] == a[1..] + b;
      RunConcat(Step(s, a[0]), a[1..], b, k);
    }
  }

  lemma {:induction false} NothingTouches<D>(s: State<D>, run: seq<Event<D>>, k: Key)
    requires Possible(s, run) && (k, Version(s, k)) !in s.loading && Begins(run, k) == 0
    requires Clear !in run && Outside(k) !in run
    ensures Cached(Run(s, run), k) == Cached(s, k)
    decreases run
  {
    if run != [] {
      assert run[0] in run;
      OthersLeaveTheCache(s, run[0], k);
      NothingTouches(Step(s, run[0]), run[1..], k);
    }
  }

  /** Once the answer to the last refresh begun has arrived, and nothing is cleared afterwards, the
      cache holds exactly its data, or nothing if it failed, whatever older answers still arrive. */
  lemma LastBegunHasTheLastWord<D>(before: seq<Event<D>>, answer: Event<D>, after: seq<Event<D>>)
    requires answer.Loaded? || answer.Failed?
    requires Possible(Start(), before + [answer] + after)
    requires answer.version == Begins(before + [answer] + after, answer.key)
    requires Clear !in after && Outside(answer.key) !in after
    ensures Cached(Run(Start(), before + [answer] + after), answer.key)
            == if answer.Loaded? then Some(answer.data) else None
  {
    var k := answer.key;
    RunConcat(Start(), before + [answer], after, k);
    RunConcat(Start(), before, [answer], k);
    var s := Run(Start<D>(), before);
    RunConsistent(Start<D>(), before);
    VersionsCountBegins(Start<D>(), before, k);
    assert [answer][1..] == [];
    assert Enabled(s, answer) && Run(s, [answer]) == Step(s, answer);
    assert (k, answer.version) in s.loading;
    NothingTouches(Step(s, answer), after, k);
  }
}
