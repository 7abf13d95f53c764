/** The registry of repository paths: an upsert replaces the entry of its repository or adds one, and
    sorts the entries by name. Read through its index it is a map on which the last write wins. */
module Registry {
  import opened Options
  import opened Ordering
  import opened Sorting
  import opened Utf8
  import opened ScopeHeaders

  datatype Entry = Entry(
    repoId: string, provider: string, organisation: string, name: string, identity: string, repoRoot: string,
    lastBranch: Option<string>, gitDir: Option<string>, updatedAt: nat)

  function NewEntry(s: Scope, now: nat): Entry {
    Entry(s.repoId, s.provider, s.organization, s.name, s.identity, s.repoRoot, Some(s.branch), Some(s.gitDir), now)
  }

  /** Names compare as text; the bytes of their UTF-8 encodings compare alike (`NamesCompareAsBytes`). */
  predicate NameLessOrEqual(a: Entry, b: Entry) {
    CompareSeq(a.name, b.name, CompareChar) <= 0
  }

  /** The entry of the same repository is replaced, or the new one added at the end. */
  function Put(entries: seq<Entry>, e: Entry): seq<Entry> {
    if entries == [] then [e]
    else if entries[0].repoId == e.repoId then [e] + entries[1..]
    else [entries[0]] + Put(entries[1..], e)
  }

  function Upserted(entries: seq<Entry>, e: Entry): seq<Entry> {
    Sort(Put(entries, e), NameLessOrEqual)
  }

  /** The map of the entries by repository; of two entries of one repository the later counts. */
  function Index(entries: seq<Entry>): map<string, Entry> {
    if entries == [] then map[]
    else Index(entries[..|entries| - 1])[entries[|entries| - 1].repoId := entries[|entries| - 1]]
  }

  class RepoPathRegistry {
    var entries: seq<Entry>

    constructor ()
      ensures entries == []
    {
      entries := [];
    }

    method Upsert(scope: Scope, now: nat)
      modifies this
      ensures entries == Upserted(old(entries), NewEntry(scope, now))
    {
      var newEntry := NewEntry(scope, now);
      var i := 0;
      while i < |entries| && entries[i].repoId != newEntry.repoId
        invariant 0 <= i <= |entries|
        invariant forall k :: 0 <= k < i ==> entries[k].repoId != newEntry.repoId
      {
        i := i + 1;
      }
      PutAt(entries, newEntry, i);
      if i < |entries| {
        entries := entries[i := newEntry];
      } else {
        entries := entries + [newEntry];
      }
      entries := Sort(entries, NameLessOrEqual);
    }

    method IndexEntries() returns (index: map<string, Entry>)
      ensures index == Index(entries)
    {
      index := map[];
      for i := 0 to |entries|
        invariant index == Index(entries[..i])
      {
        assert entries[..i + 1][..i] == entries[..i];
        index := index[entries[i].repoId := entries[i]];
      }
      assert entries[..|entries|] == entries;
    }
  }

  lemma {:induction false} PutAt(entries: seq<Entry>, e: Entry, i: nat)
    requires i <= |entries| && forall k :: 0 <= k < i ==> entries[k].repoId != e.repoId
    requires i < |entries| ==> entries[i].repoId == e.repoId
    ensures Put(entries, e) == if i < |entries| then entries[i := e] else entries + [e]
  {
    if entries != [] {
      assert entries == [entries[0]] + entries[1..];
      if i > 0 {
        PutAt(entries[1..], e, i - 1);
      }
    }
  }

  /** The entries after the upserts of a run, from an empty registry. */
  function AfterUpserts(upserts: seq<Entry>): seq<Entry> {
    if upserts == [] then []
    else Upserted(AfterUpserts(upserts[..|upserts| - 1]), upserts[|upserts| - 1])
  }

  predicate UniqueIds(entries: seq<Entry>) {
    forall i, j :: 0 <= i < j < |entries| ==> entries[i].repoId != entries[j].repoId
  }

  lemma NamesAreOrdered()
    ensures TotalPreorder(NameLessOrEqual)
  {
    CharsOrdered();
    forall a: Entry, b: Entry ensures NameLessOrEqual(a, b) || NameLessOrEqual(b, a) {
      SeqLawful(a.name, b.name, b.name, CompareChar);
    }
    forall a: Entry, b: Entry, c: Entry | NameLessOrEqual(a, b) && NameLessOrEqual(b, c)
      ensures NameLessOrEqual(a, c)
    {
      SeqLawful(a.name, b.name, c.name, CompareChar);
    }
  }

  // ---- The order of names is the order of their bytes ----

  function ByteBelow(): (Byte, Byte) -> bool {
    (x: Byte, y: Byte) => x < y
  }

  lemma SixBitOrder(x: nat, y: nat)
    requires x < y
    ensures x / 64 < y / 64 || (x / 64 == y / 64 && x % 64 < y % 64)
  {
  }

  /** Numbers in six-bit groups differ at their first different group. */
  lemma GroupOrder(x: nat, y: nat)
    requires x < y
    ensures x / 4096 < y / 4096 || (x / 4096 == y / 4096 && x / 64 % 64 < y / 64 % 64)
            || (x / 64 == y / 64 && x / 4096 == y / 4096 && x % 64 < y % 64)
    ensures x / 262144 < y / 262144 || (x / 262144 == y / 262144 && x / 4096 % 64 < y / 4096 % 64) || x / 4096 == y / 4096
  {
    assert x / 64 / 64 == x / 4096 && y / 64 / 64 == y / 4096;
    assert x / 4096 / 64 == x / 262144 && y / 4096 / 64 == y / 262144;
    SixBitOrder(x, y);
    if x / 64 < y / 64 {
      SixBitOrder(x / 64, y / 64);
      if x / 4096 < y / 4096 {
        SixBitOrder(x / 4096, y / 4096);
      }
    }
  }

  lemma SameWidthDiffers(c: char, d: char) returns (k: nat)
    requires c < d && |EncodeChar(c)| == |EncodeChar(d)|
    ensures k < |EncodeChar(c)| && BelowAt(EncodeChar(c), EncodeChar(d), k, ByteBelow())
  {
    var x, y := c as int, d as int;
    GroupOrder(x, y);
    match |EncodeChar(c)|
    case 1 =>
      k := 0;
    case 2 =>
      SixBitOrder(x, y);
      k := if x / 64 < y / 64 then 0 else 1;
    case 3 =>
      k := if x / 4096 < y / 4096 then 0 else if x / 64 % 64 < y / 64 % 64 then 1 else 2;
    case _ =>
      k := if x / 262144 < y / 262144 then 0 else if x / 4096 % 64 < y / 4096 % 64 then 1
           else if x / 64 % 64 < y / 64 % 64 then 2 else 3;
  }

  lemma OtherWidthDiffers(c: char, d: char)
    requires c < d && |EncodeChar(c)| != |EncodeChar(d)|
    ensures BelowAt(EncodeChar(c), EncodeChar(d), 0, ByteBelow())
  {
  }

  /** A text that is smaller character by character is smaller byte by byte. */
  lemma {:induction false} SmallerTextSmallerBytes(a: string, b: string)
    requires SeqBelow(a, b, CharBelow())
    ensures SeqBelow(Encode(a), Encode(b), ByteBelow())
  {
    var k :| BelowAt(a, b, k, CharBelow());
    if a == [] {
      assert BelowAt(Encode(a), Encode(b), 0, ByteBelow());
    } else if k == 0 {
      var c, d := a[0], b[0];
      if |EncodeChar(c)| == |EncodeChar(d)| {
        var m := SameWidthDiffers(c, d);
        BelowInFront(EncodeChar(c), EncodeChar(d), Encode(a[1..]), Encode(b[1..]), m, ByteBelow());
      } else {
        OtherWidthDiffers(c, d);
        BelowInFront(EncodeChar(c), EncodeChar(d), Encode(a[1..]), Encode(b[1..]), 0, ByteBelow());
      }
    } else {
      assert a[0] == a[..k][0] == b[..k][0] == b[0];
      assert a[1..][..k - 1] == a[..k][1..] && b[1..][..k - 1] == b[..k][1..];
      assert BelowAt(a[1..], b[1..], k - 1, CharBelow());
      SmallerTextSmallerBytes(a[1..], b[1..]);
      BelowBehind(EncodeChar(a[0]), Encode(a[1..]), Encode(b[1..]), ByteBelow());
    }
  }

  lemma NotBothBelow(a: seq<Byte>, b: seq<Byte>, j: int, k: int)
    ensures !(BelowAt(a, b, j, ByteBelow()) && BelowAt(b, a, k, ByteBelow()))
  {
  }

  lemma BytesBelowIsAnOrder(a: seq<Byte>, b: seq<Byte>)
    ensures !(SeqBelow(a, b, ByteBelow()) && SeqBelow(b, a, ByteBelow())) && !SeqBelow(a, a, ByteBelow())
  {
    forall j, k ensures !(BelowAt(a, b, j, ByteBelow()) && BelowAt(b, a, k, ByteBelow())) {
      NotBothBelow(a, b, j, k);
    }
  }

  /** Names compare exactly as the bytes of their encodings do. */
  lemma NamesCompareAsBytes(a: string, b: string)
    ensures CompareSeq(a, b, CompareChar) < 0 <==> SeqBelow(Encode(a), Encode(b), ByteBelow())
  {
    TextOrder(a, b);
    TextOrder(b, a);
    CharsOrdered();
    SeqLawful(a, b, b, CompareChar);
    BytesBelowIsAnOrder(Encode(a), Encode(b));
    if SeqBelow(a, b, CharBelow()) {
      SmallerTextSmallerBytes(a, b);
    } else if SeqBelow(b, a, CharBelow()) {
      SmallerTextSmallerBytes(b, a);
    }
  }

  lemma {:induction false} PutMembers(entries: seq<Entry>, e: Entry)
    requires UniqueIds(entries)
    ensures UniqueIds(Put(entries, e))
    ensures forall x :: x in Put(entries, e) <==> x == e || (x in entries && x.repoId != e.repoId)
  {
    if entries != [] {
      var rest := entries[1..];
      assert entries == [entries[0]] + rest;
      if entries[0].repoId != e.repoId {
        PutMembers(rest, e);
        var put := Put(rest, e);
        forall j | 0 <= j < |put| ensures put[j].repoId != entries[0].repoId {
          assert put[j] in put;
        }
      }
    }
  }

  /** Entries are listed by name, the smaller first: of two neighbours the later name is never smaller
      at the first character in which they differ. */
  lemma SortedByName(entries: seq<Entry>)
    ensures Sorted(entries, NameLessOrEqual) <==>
            forall i, j :: 0 <= i < j < |entries| ==> !SeqBelow(entries[j].name, entries[i].name, CharBelow())
  {
    forall i, j | 0 <= i < j < |entries|
      ensures NameLessOrEqual(entries[i], entries[j]) <==> !SeqBelow(entries[j].name, entries[i].name, CharBelow())
    {
      TextOrder(entries[j].name, entries[i].name);
      CharsOrdered();
      SeqLawful(entries[i].name, entries[j].name, entries[i].name, CompareChar);
    }
  }

  /** What is stored of a scope can be read back under its repository: all its fields but the project
      path and the fingerprint, with the time of the write. */
  lemma UpsertedScopeIsFound(entries: seq<Entry>, s: Scope, now: nat)
    requires UniqueIds(entries)
    ensures var index := Index(Upserted(entries, NewEntry(s, now)));
            && s.repoId in index
            && var e := index[s.repoId];
               && s == Scope(e.repoId, e.name, e.provider, e.organisation, e.identity, e.repoRoot,
                             if e.lastBranch.Some? then e.lastBranch.value else "", s.projectPath,
                             if e.gitDir.Some? then e.gitDir.value else "", s.fingerprint)
               && e.lastBranch.Some? && e.gitDir.Some? && e.updatedAt == now
  {
    UpsertWritesOneKey(entries, NewEntry(s, now));
  }

  /** With unique ids the index holds exactly the entries. */
  lemma {:induction false} IndexHoldsEntries(entries: seq<Entry>)
    requires UniqueIds(entries)
    ensures forall e :: e in entries <==> e.repoId in Index(entries) && Index(entries)[e.repoId] == e
    ensures forall k :: k in Index(entries) ==> Index(entries)[k].repoId == k
  {
    if entries != [] {
      var front, last := entries[..|entries| - 1], entries[|entries| - 1];
      IndexHoldsEntries(front);
      assert entries == front + [last];
    }
  }

  lemma SortedKeepsIds(entries: seq<Entry>)
    requires UniqueIds(entries)
    ensures UniqueIds(Sort(entries, NameLessOrEqual)) && Sorted(Sort(entries, NameLessOrEqual), NameLessOrEqual)
    ensures forall e :: e in Sort(entries, NameLessOrEqual) <==> e in entries
  {
    var sorted := Sort(entries, NameLessOrEqual);
    NamesAreOrdered();
    SortSorts(entries, NameLessOrEqual);
    RearrangedIsDistinct(entries, sorted);
    SameMembers(entries, sorted);
    forall i, j | 0 <= i < j < |sorted| ensures sorted[i].repoId != sorted[j].repoId {
      assert sorted[i] in entries && sorted[j] in entries;
    }
  }

  /** With unique ids the entries alone make the index, whatever their order. */
  lemma SameEntriesSameIndex(s: seq<Entry>, t: seq<Entry>)
    requires UniqueIds(s) && UniqueIds(t) && forall e :: e in s <==> e in t
    ensures Index(s) == Index(t)
  {
    IndexHoldsEntries(s);
    IndexHoldsEntries(t);
    forall k ensures k in Index(s) <==> k in Index(t) {
      if k in Index(s) {
        assert Index(s)[k] in t;
      }
      if k in Index(t) {
        assert Index(t)[k] in s;
      }
    }
    forall k | k in Index(s) ensures Index(s)[k] == Index(t)[k] {
      assert Index(s)[k] in t;
    }
  }

  /** Putting an entry writes its key. */
  lemma PutWritesOneKey(entries: seq<Entry>, e: Entry)
    requires UniqueIds(entries)
    ensures UniqueIds(Put(entries, e)) && Index(Put(entries, e)) == Index(entries)[e.repoId := e]
  {
    var put, expected := Put(entries, e), Index(entries)[e.repoId := e];
    PutMembers(entries, e);
    IndexHoldsEntries(entries);
    IndexHoldsEntries(put);
    forall k ensures k in Index(put) <==> k in expected {
      if k in Index(put) {
        assert Index(put)[k] in put;
      }
      if k in expected {
        assert expected[k] in put;
      }
    }
    forall k | k in expected ensures Index(put)[k] == expected[k] {
      assert expected[k] in put;
    }
  }

  /** An upsert writes one key of the index and keeps ids unique and entries sorted by name. */
  lemma UpsertWritesOneKey(entries: seq<Entry>, e: Entry)
    requires UniqueIds(entries)
    ensures UniqueIds(Upserted(entries, e)) && Sorted(Upserted(entries, e), NameLessOrEqual)
    ensures Index(Upserted(entries, e)) == Index(entries)[e.repoId := e]
  {
    var put := Put(entries, e);
    PutWritesOneKey(entries, e);
    SortedKeepsIds(put);
    SameEntriesSameIndex(put, Upserted(entries, e));
  }

  /** Among entries of one name an upsert keeps the order: a replaced entry keeps its place, and a new
      one comes last. */
  lemma TiesKeepTheirOrder(entries: seq<Entry>, e: Entry, i: nat, pivot: Entry)
    requires i <= |entries| && forall k :: 0 <= k < i ==> entries[k].repoId != e.repoId
    requires i < |entries| ==> entries[i].repoId == e.repoId
    ensures Filter(Upserted(entries, e), Ties(pivot, NameLessOrEqual)) ==
            Filter(if i < |entries| then entries[i := e] else entries + [e], Ties(pivot, NameLessOrEqual))
  {
    PutAt(entries, e, i);
    NamesAreOrdered();
    SortStable(Put(entries, e), NameLessOrEqual, pivot);
  }

  /** After any upserts from an empty registry repository ids are unique, entries are sorted by name,
      and the index is the one of the upserts themselves, replayed in their order. */
  lemma {:induction false} RegistryReplaysUpserts(upserts: seq<Entry>)
    ensures UniqueIds(AfterUpserts(upserts)) && Sorted(AfterUpserts(upserts), NameLessOrEqual)
    ensures Index(AfterUpserts(upserts)) == Index(upserts)
  {
    if upserts != [] {
      var front, last := upserts[..|upserts| - 1], upserts[|upserts| - 1];
      RegistryReplaysUpserts(front);
      UpsertWritesOneKey(AfterUpserts(front), last);
    }
  }

  /** `upserts[i]` is the last write to its repository. */
  predicate LastWrite(upserts: seq<Entry>, i: nat)
    requires i < |upserts|
  {
    forall j :: i < j < |upserts| ==> upserts[j].repoId != upserts[i].repoId
  }

  /** Replaying makes the last write win: the index holds an entry exactly if it is the last one
      written to its repository. */
  lemma {:induction false} LastWriteWins(upserts: seq<Entry>, e: Entry)
    ensures e.repoId in Index(upserts) && Index(upserts)[e.repoId] == e
            <==> exists i :: 0 <= i < |upserts| && upserts[i] == e && LastWrite(upserts, i)
  {
    if upserts != [] {
      var n := |upserts| - 1;
      var front := upserts[..n];
      LastWriteWins(front, e);
      assert LastWrite(upserts, n);
      if e.repoId != upserts[n].repoId {
        if i :| 0 <= i < n && front[i] == e && LastWrite(front, i) {
          assert upserts[i] == e && LastWrite(upserts, i);
        }
        if i :| 0 <= i < |upserts| && upserts[i] == e && LastWrite(upserts, i) {
          assert front[i] == e && LastWrite(front, i);
        }
      }
    }
  }
}
