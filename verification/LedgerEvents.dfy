/**
  Ledger events and the one loader of recorded events (ledger/current_events.py, validation.py).

  An event file is named by the sha256 of its event id; as names are then injective, the events
  directory is a map from event ids to events.
 */
module LedgerEvents {
  import opened Wrappers

  datatype Status = Unreleased | Released

  /** The schema-checked fields of an event; `strict` says whether the change-event schema accepts them. */
  datatype Content = Content(fields: string, strict: bool)

  datatype Event = Event(id: string, timestamp: string, content: Content, status: Status, release: Option<string>,
      commits: seq<string>)

  /** `event_identity`: everything but the lifecycle annotations. */
  datatype Identity = Identity(id: string, timestamp: string, content: Content)

  function IdentityOf(e: Event): Identity {
    Identity(e.id, e.timestamp, e.content)
  }

  /** Events of one identity differ at most in their lifecycle annotations. */
  lemma {:induction false} SameIdentity(a: Event, b: Event)
    ensures IdentityOf(a) == IdentityOf(b) <==> b == a.(status := b.status, release := b.release, commits := b.commits)
  {
  }

  predicate CurrentOk(e: Event) {
    e.content.strict && e.id != "" && e.status.Unreleased? && e.release.None?
  }

  predicate HistoricalOk(e: Event) {
    e.content.strict && e.id != "" && e.status.Released? && e.release.Some? && e.release.value != ""
  }

  // ---------------------------------------------------------------- order of recorded events

  predicate LexLe(a: string, b: string) {
    a == [] || (b != [] && (a[0] < b[0] || (a[0] == b[0] && LexLe(a[1..], b[1..]))))
  }

  lemma {:induction false} LexTotal(a: string, b: string)
    ensures LexLe(a, b) || LexLe(b, a)
    ensures LexLe(a, b) && LexLe(b, a) ==> a == b
  {
    if a != [] && b != [] {
      LexTotal(a[1..], b[1..]);
      assert a == [a[0]] + a[1..] && b == [b[0]] + b[1..];
    }
  }

  lemma {:induction false} LexTransitive(a: string, b: string, c: string)
    requires LexLe(a, b) && LexLe(b, c)
    ensures LexLe(a, c)
  {
    if a != [] && a[0] == b[0] == c[0] {
      LexTransitive(a[1..], b[1..], c[1..]);
    }
  }

  /** By timestamp, then by id. */
  predicate Before(a: Event, b: Event) {
    if a.timestamp == b.timestamp then LexLe(a.id, b.id) else LexLe(a.timestamp, b.timestamp)
  }

  /** Dictionary order: `a` is a beginning of `b`, or is smaller at the first place where they differ. */
  ghost predicate TextLe(a: string, b: string) {
    exists k :: 0 <= k <= |a| && DiffersAt(a, b, k)
  }

  ghost predicate DiffersAt(a: string, b: string, k: nat)
    requires k <= |a|
  {
    k <= |b| && a[..k] == b[..k] && (k == |a| || (k < |b| && a[k] < b[k]))
  }

  lemma {:induction false} LexIs(a: string, b: string)
    ensures LexLe(a, b) <==> TextLe(a, b)
  {
    if a == "" {
      assert DiffersAt(a, b, 0);
    } else if b == "" || a[0] != b[0] {
      if LexLe(a, b) {
        assert DiffersAt(a, b, 0);
      }
      assert forall k: nat :: 0 < k <= |a| && k <= |b| && a[..k] == b[..k] ==> a[..k][0] == b[..k][0];
    } else {
      LexIs(a[1..], b[1..]);
      if k :| 0 <= k <= |a[1..]| && DiffersAt(a[1..], b[1..], k) {
        assert a[..k + 1] == [a[0]] + a[1..][..k] && b[..k + 1] == [b[0]] + b[1..][..k];
        assert DiffersAt(a, b, k + 1);
      }
      if k :| 0 <= k <= |a| && DiffersAt(a, b, k) {
        assert k > 0;
        assert a[1..][..k - 1] == a[..k][1..] && b[1..][..k - 1] == b[..k][1..];
        assert DiffersAt(a[1..], b[1..], k - 1);
      }
    }
  }

  lemma {:induction false} BeforeTotal(a: Event, b: Event)
    ensures Before(a, b) || Before(b, a)
    ensures Before(a, b) && Before(b, a) ==> a.id == b.id && a.timestamp == b.timestamp
  {
    LexTotal(a.timestamp, b.timestamp);
    LexTotal(a.id, b.id);
  }

  lemma {:induction false} BeforeTransitive(a: Event, b: Event, c: Event)
    requires Before(a, b) && Before(b, c)
    ensures Before(a, c)
  {
    if a.timestamp == b.timestamp == c.timestamp {
      LexTransitive(a.id, b.id, c.id);
    } else {
      LexTotal(a.timestamp, a.timestamp);
      LexTotal(b.timestamp, b.timestamp);
      LexTransitive(a.timestamp, b.timestamp, c.timestamp);
      LexTotal(a.timestamp, b.timestamp);
      LexTotal(b.timestamp, c.timestamp);
    }
  }

  ghost predicate Sorted(s: seq<Event>) {
    forall i, j :: 0 <= i < j < |s| ==> Before(s[i], s[j])
  }

  /** Sorted events go by their timestamps, and by their ids where the timestamps are equal. */
  lemma {:induction false} SortedByTime(s: seq<Event>, i: nat, j: nat)
    requires Sorted(s) && i < j < |s|
    ensures TextLe(s[i].timestamp, s[j].timestamp)
    ensures s[i].timestamp == s[j].timestamp ==> TextLe(s[i].id, s[j].id)
  {
    assert Before(s[i], s[j]);
    LexIs(s[i].timestamp, s[j].timestamp);
    LexIs(s[i].id, s[j].id);
    LexTotal(s[i].timestamp, s[i].timestamp);
  }

  ghost predicate DistinctIds(s: seq<Event>) {
    forall i, j :: 0 <= i < j < |s| ==> s[i].id != s[j].id
  }

  ghost predicate FilesOk(files: map<string, Event>) {
    forall id :: id in files ==> files[id].id == id
  }

  /** Some listing of the events directory: every file once, in any order. */
  ghost predicate Listing(s: seq<Event>, files: map<string, Event>) {
    && DistinctIds(s)
    && (forall i :: 0 <= i < |s| ==> s[i].id in files && files[s[i].id] == s[i])
    && (forall id :: id in files ==> exists i :: 0 <= i < |s| && s[i].id == id)
  }

  function Insert(e: Event, s: seq<Event>): seq<Event> {
    if s == [] then [e] else if Before(e, s[0]) then [e] + s else [s[0]] + Insert(e, s[1..])
  }

  function SortEvents(s: seq<Event>): seq<Event> {
    if s == [] then [] else Insert(s[0], SortEvents(s[1..]))
  }

  lemma {:induction false} ListingTail(s: seq<Event>, files: map<string, Event>)
    requires Listing(s, files) && s != []
    ensures Listing(s[1..], files - {s[0].id})
  {
    forall id | id in files - {s[0].id} ensures exists k :: 0 <= k < |s[1..]| && s[1..][k].id == id {
      var k :| 0 <= k < |s| && s[k].id == id;
      assert s[1..][k - 1].id == id;
    }
  }

  lemma {:induction false} ListingCons(e: Event, s: seq<Event>, files: map<string, Event>)
    requires e.id in files && files[e.id] == e && Listing(s, files - {e.id})
    ensures Listing([e] + s, files)
  {
    forall id | id in files ensures exists k :: 0 <= k < |[e] + s| && ([e] + s)[k].id == id {
      if id == e.id {
        assert ([e] + s)[0].id == id;
      } else {
        assert id in files - {e.id};
        var k :| 0 <= k < |s| && s[k].id == id;
        assert ([e] + s)[k + 1].id == id;
      }
    }
  }

  lemma {:induction false} InsertListing(e: Event, s: seq<Event>, files: map<string, Event>)
    requires e.id in files && files[e.id] == e && Listing(s, files - {e.id})
    ensures Listing(Insert(e, s), files)
    decreases |s|
  {
    if s == [] || Before(e, s[0]) {
      ListingCons(e, s, files);
      assert s == [] ==> [e] + s == [e];
    } else {
      ListingTail(s, files - {e.id});
      assert files - {e.id} - {s[0].id} == files - {s[0].id} - {e.id};
      InsertListing(e, s[1..], files - {s[0].id});
      ListingCons(s[0], Insert(e, s[1..]), files);
    }
  }

  lemma {:induction false} SortListing(s: seq<Event>, files: map<string, Event>)
    requires Listing(s, files)
    ensures Listing(SortEvents(s), files)
    decreases |s|
  {
    if s != [] {
      ListingTail(s, files);
      SortListing(s[1..], files - {s[0].id});
      InsertListing(s[0], SortEvents(s[1..]), files);
    }
  }

  lemma {:induction false} InsertElements(e: Event, s: seq<Event>, j: nat)
    requires j < |Insert(e, s)|
    ensures Insert(e, s)[j] == e || exists k :: 0 <= k < |s| && s[k] == Insert(e, s)[j]
    decreases |s|
  {
    if s != [] && !Before(e, s[0]) && j > 0 {
      InsertElements(e, s[1..], j - 1);
      if Insert(e, s)[j] != e {
        var k :| 0 <= k < |s[1..]| && s[1..][k] == Insert(e, s[1..])[j - 1];
        assert s[k + 1] == Insert(e, s)[j];
      }
    }
  }

  lemma {:induction false} InsertSorted(e: Event, s: seq<Event>)
    requires Sorted(s)
    ensures Sorted(Insert(e, s))
    decreases |s|
  {
    if s == [] {
    } else if Before(e, s[0]) {
      forall j | 0 <= j < |s| ensures Before(e, s[j]) {
        if j > 0 {
          BeforeTransitive(e, s[0], s[j]);
        }
      }
    } else {
      InsertSorted(e, s[1..]);
      BeforeTotal(e, s[0]);
      var rest := Insert(e, s[1..]);
      forall j | 0 <= j < |rest| ensures Before(s[0], rest[j]) {
        InsertElements(e, s[1..], j);
      }
    }
  }

  lemma {:induction false} SortSorted(s: seq<Event>)
    ensures Sorted(SortEvents(s))
    decreases |s|
  {
    if s != [] {
      SortSorted(s[1..]);
      InsertSorted(s[0], SortEvents(s[1..]));
    }
  }

  /** The first of a sorted listing is the least event of the directory. */
  lemma {:induction false} FirstIsLeast(a: seq<Event>, b: seq<Event>, files: map<string, Event>)
    requires Sorted(a) && Listing(a, files) && Listing(b, files) && a != [] && b != []
    ensures Before(a[0], b[0])
  {
    assert b[0].id in files;
    var j :| 0 <= j < |a| && a[j].id == b[0].id;
    BeforeTotal(b[0], b[0]);
    assert j > 0 ==> Before(a[0], a[j]);
  }

  lemma {:induction false} SameHead(a: seq<Event>, b: seq<Event>, files: map<string, Event>)
    requires Sorted(a) && Sorted(b) && Listing(a, files) && Listing(b, files) && a != []
    ensures b != [] && a[0] == b[0]
  {
    assert a[0].id in files;
    FirstIsLeast(a, b, files);
    FirstIsLeast(b, a, files);
    BeforeTotal(a[0], b[0]);
  }

  lemma {:induction false} HeadIsListed(s: seq<Event>, files: map<string, Event>)
    requires Listing(s, files)
    ensures s != [] ==> s[0].id in files
  {
  }

  lemma {:induction false} EmptyListing(s: seq<Event>, files: map<string, Event>)
    requires Listing([], files) && Listing(s, files)
    ensures s == []
  {
    HeadIsListed(s, files);
    assert files == map[];
  }

  lemma {:induction false} SameSeq<T>(a: seq<T>, b: seq<T>)
    requires a != [] && b != [] && a[0] == b[0] && a[1..] == b[1..]
    ensures a == b
  {
    assert a == [a[0]] + a[1..] && b == [b[0]] + b[1..];
  }

  lemma {:induction false} SortedTail(s: seq<Event>)
    requires Sorted(s) && s != []
    ensures Sorted(s[1..])
  {
    var rest := s[1..];
    assert forall i :: 0 <= i < |rest| ==> rest[i] == s[i + 1];
  }

  /** Two sorted listings of one directory begin alike and go on as two sorted listings of the rest. */
  lemma {:induction false} SameBeginning(a: seq<Event>, b: seq<Event>, files: map<string, Event>)
    requires Sorted(a) && Sorted(b) && Listing(a, files) && Listing(b, files) && a != []
    ensures b != [] && a[0] == b[0] && Sorted(a[1..]) && Sorted(b[1..])
    ensures Listing(a[1..], files - {a[0].id}) && Listing(b[1..], files - {a[0].id})
  {
    SameHead(a, b, files);
    ListingTail(a, files);
    ListingTail(b, files);
    SortedTail(a);
    SortedTail(b);
  }

  /** A directory has only one sorted listing. */
  lemma {:induction false} SortedListingUnique(a: seq<Event>, b: seq<Event>, files: map<string, Event>)
    requires Sorted(a) && Sorted(b) && Listing(a, files) && Listing(b, files)
    ensures a == b
    decreases |a|
  {
    if a == [] {
      EmptyListing(b, files);
    } else {
      SameBeginning(a, b, files);
      SortedListingUnique(a[1..], b[1..], files - {a[0].id});
      SameSeq(a, b);
    }
  }

  /** However the events were recorded and however the directory lists them, loading sorts them the same way. */
  lemma {:induction false} SortOfListings(a: seq<Event>, b: seq<Event>, files: map<string, Event>)
    requires Listing(a, files) && Listing(b, files)
    ensures SortEvents(a) == SortEvents(b)
  {
    SortListing(a, files);
    SortListing(b, files);
    SortSorted(a);
    SortSorted(b);
    SortedListingUnique(SortEvents(a), SortEvents(b), files);
  }
}
