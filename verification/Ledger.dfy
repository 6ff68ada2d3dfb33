/**
  The release ledger (ledger/current_events.py, archive.py, recorder.py, legacy_runtime.py): what is
  recorded, what is released, what is therefore pending, and what every run of recordings,
  migrations and releases keeps.  As in the journal, one action is one atomic change on disk.
 */
module Ledger {
  import opened Wrappers
  import opened LedgerEvents

  // ---------------------------------------------------------------- merging sources by id

  ghost predicate Consistent(rows: seq<Event>) {
    forall i, j :: 0 <= i < j < |rows| && rows[i].id == rows[j].id ==> IdentityOf(rows[i]) == IdentityOf(rows[j])
  }

  predicate HasId(rows: seq<Event>, id: string) {
    exists i :: 0 <= i < |rows| && rows[i].id == id
  }

  /** The first row of each id, in order. */
  function FirstOfEach(rows: seq<Event>): seq<Event> {
    if rows == [] then []
    else
      var init, last := rows[..|rows| - 1], rows[|rows| - 1];
      FirstOfEach(init) + if HasId(init, last.id) then [] else [last]
  }

  lemma {:induction false} FirstOfEachIds(rows: seq<Event>)
    ensures DistinctIds(FirstOfEach(rows))
    ensures forall i :: 0 <= i < |FirstOfEach(rows)| ==> exists k :: 0 <= k < |rows| && rows[k] == FirstOfEach(rows)[i]
    ensures forall id :: HasId(FirstOfEach(rows), id) <==> HasId(rows, id)
    decreases |rows|
  {
    if rows != [] {
      var init, last := rows[..|rows| - 1], rows[|rows| - 1];
      FirstOfEachIds(init);
      var before, after := FirstOfEach(init), FirstOfEach(rows);
      forall i | 0 <= i < |after| ensures exists k :: 0 <= k < |rows| && rows[k] == after[i] {
        if i < |before| {
          var k :| 0 <= k < |init| && init[k] == before[i];
          assert rows[k] == after[i];
        } else {
          assert rows[|rows| - 1] == after[i];
        }
      }
      forall id ensures HasId(after, id) <==> HasId(rows, id) {
        if HasId(rows, id) {
          var k :| 0 <= k < |rows| && rows[k].id == id;
          if k < |init| {
            assert init[k].id == id && HasId(init, id);
            var i :| 0 <= i < |before| && before[i].id == id;
            assert after[i].id == id;
          } else if HasId(before, last.id) {
            var i :| 0 <= i < |before| && before[i].id == id;
            assert after[i].id == id;
          } else {
            assert after[|before|].id == id;
          }
        }
      }
      forall i, j | 0 <= i < j < |after| ensures after[i].id != after[j].id {
        if j == |before| {
          assert HasId(before, after[i].id);
        }
      }
    }
  }

  /** `e` is a row, and no earlier row has its id. */
  ghost predicate IsFirst(rows: seq<Event>, e: Event) {
    exists k :: 0 <= k < |rows| && rows[k] == e && forall l :: 0 <= l < k ==> rows[l].id != e.id
  }

  /** Some row has the first id, and so far none has the second. */
  ghost predicate FirstBefore(rows: seq<Event>, id: string, other: string) {
    exists k :: 0 <= k < |rows| && rows[k].id == id && forall l :: 0 <= l <= k ==> rows[l].id != other
  }

  /** Each id once, with its first row, in the order in which the ids first occur. */
  ghost predicate KeepsFirst(rows: seq<Event>, kept: seq<Event>) {
    && DistinctIds(kept)
    && (forall id :: HasId(kept, id) <==> HasId(rows, id))
    && (forall i :: 0 <= i < |kept| ==> IsFirst(rows, kept[i]))
    && (forall i, j :: 0 <= i < j < |kept| ==> FirstBefore(rows, kept[i].id, kept[j].id))
  }

  lemma {:induction false} HasIdMore(rows: seq<Event>, e: Event, id: string)
    ensures HasId(rows + [e], id) <==> HasId(rows, id) || id == e.id
  {
    assert (rows + [e])[|rows|] == e;
    if HasId(rows, id) {
      var i :| 0 <= i < |rows| && rows[i].id == id;
      assert (rows + [e])[i].id == id;
    }
  }

  lemma {:induction false} FirstMore(rows: seq<Event>, e: Event, id: string, other: string)
    requires FirstBefore(rows, id, other) || (HasId(rows, id) && !HasId(rows, other))
    ensures FirstBefore(rows + [e], id, other)
  {
    var all := rows + [e];
    var k :| 0 <= k < |rows| && rows[k].id == id && forall l :: 0 <= l <= k ==> rows[l].id != other;
    assert all[k].id == id && forall l :: 0 <= l <= k ==> all[l] == rows[l];
  }

  lemma {:induction false} IsFirstMore(rows: seq<Event>, e: Event, kept: Event)
    requires IsFirst(rows, kept) || (kept == e && !HasId(rows, e.id))
    ensures IsFirst(rows + [e], kept)
  {
    var all := rows + [e];
    if IsFirst(rows, kept) {
      var k :| 0 <= k < |rows| && rows[k] == kept && forall l :: 0 <= l < k ==> rows[l].id != kept.id;
      assert all[k] == kept && forall l :: 0 <= l < k ==> all[l] == rows[l];
    } else {
      assert all[|rows|] == kept && forall l :: 0 <= l < |rows| ==> all[l] == rows[l];
    }
  }

  lemma {:induction false} FirstOfEachKeeps(rows: seq<Event>)
    ensures KeepsFirst(rows, FirstOfEach(rows))
    decreases |rows|
  {
    FirstOfEachIds(rows);
    if rows != [] {
      var init, e := rows[..|rows| - 1], rows[|rows| - 1];
      assert rows == init + [e];
      FirstOfEachKeeps(init);
      var before, kept := FirstOfEach(init), FirstOfEach(rows);
      forall i | 0 <= i < |kept| ensures IsFirst(rows, kept[i]) {
        IsFirstMore(init, e, kept[i]);
      }
      forall i, j | 0 <= i < j < |kept| ensures FirstBefore(rows, kept[i].id, kept[j].id) {
        if j < |before| {
          assert FirstBefore(init, before[i].id, before[j].id);
        } else {
          assert HasId(before, before[i].id) && !HasId(init, e.id);
        }
        FirstMore(init, e, kept[i].id, kept[j].id);
      }
    }
  }

  /** The dictionary and its rows after the first `i` sources. */
  ghost predicate Merging(rows: seq<Event>, i: nat, byId: map<string, Event>, merged: seq<Event>)
    requires i <= |rows|
  {
    && merged == FirstOfEach(rows[..i])
    && (forall k :: 0 <= k < i ==> rows[k].id in byId && IdentityOf(byId[rows[k].id]) == IdentityOf(rows[k]))
    && (forall id :: id in byId ==> exists k :: 0 <= k < i && rows[k] == byId[id] && rows[k].id == id)
  }

  lemma {:induction false} MergingNext(rows: seq<Event>, i: nat, byId: map<string, Event>, merged: seq<Event>)
    requires i < |rows| && Merging(rows, i, byId, merged)
    ensures rows[i].id !in byId ==> Merging(rows, i + 1, byId[rows[i].id := rows[i]], merged + [rows[i]])
    ensures rows[i].id in byId && IdentityOf(byId[rows[i].id]) == IdentityOf(rows[i]) ==>
              Merging(rows, i + 1, byId, merged)
    ensures rows[i].id in byId && IdentityOf(byId[rows[i].id]) != IdentityOf(rows[i]) ==> !Consistent(rows)
  {
    var e := rows[i];
    assert rows[..i + 1][..i] == rows[..i];
    if e.id in byId {
      var k :| 0 <= k < i && rows[k] == byId[e.id] && rows[k].id == e.id;
      assert rows[..i][k].id == e.id;
    } else {
      assert !HasId(rows[..i], e.id);
      var next := byId[e.id := e];
      forall id | id in next ensures exists k :: 0 <= k < i + 1 && rows[k] == next[id] && rows[k].id == id {
        if id == e.id {
          assert rows[i] == next[id];
        } else {
          var k :| 0 <= k < i && rows[k] == byId[id] && rows[k].id == id;
        }
      }
    }
  }

  lemma {:induction false} MergedConsistently(rows: seq<Event>, byId: map<string, Event>, merged: seq<Event>)
    requires Merging(rows, |rows|, byId, merged)
    ensures Consistent(rows) && merged == FirstOfEach(rows)
  {
    assert rows[..|rows|] == rows;
  }

  /** `_merge`: the sources in order, one row per id; two contents for one id are an error. */
  method Merge(rows: seq<Event>) returns (r: Result<seq<Event>, string>)
    ensures r.Ok? <==> Consistent(rows)
    ensures r.Ok? ==> r.value == FirstOfEach(rows) && KeepsFirst(rows, r.value)
  {
    var byId: map<string, Event> := map[];
    var merged: seq<Event> := [];
    for i := 0 to |rows|
      invariant Merging(rows, i, byId, merged)
    {
      var event := rows[i];
      MergingNext(rows, i, byId, merged);
      if event.id !in byId {
        byId := byId[event.id := event];
        merged := merged + [event];
      } else if IdentityOf(byId[event.id]) != IdentityOf(event) {
        return Err("CON-LEDGER-008");
      }
    }
    MergedConsistently(rows, byId, merged);
    FirstOfEachKeeps(rows);
    return Ok(merged);
  }

  // ---------------------------------------------------------------- the historical ledger

  ghost predicate HistoryConsistent(history: seq<Event>) {
    forall i, j :: 0 <= i < j < |history| && history[i].id == history[j].id ==>
      IdentityOf(history[i]) == IdentityOf(history[j]) && history[i].release == history[j].release
  }

  /** `released_events`: history by id; fails closed on two contents or two releases for one id. */
  method ReleasedEvents(history: seq<Event>) returns (r: Result<map<string, Event>, string>)
    ensures r.Ok? <==> HistoryConsistent(history)
    ensures r.Ok? ==> forall id :: id in r.value <==> HasId(history, id)
    ensures r.Ok? ==> forall i :: 0 <= i < |history| ==>
              history[i].id in r.value && SameRelease(r.value[history[i].id], history[i])
  {
    var released: map<string, Event> := map[];
    for i := 0 to |history|
      invariant forall k :: 0 <= k < i ==>
                  history[k].id in released && IdentityOf(released[history[k].id]) == IdentityOf(history[k])
                  && released[history[k].id].release == history[k].release
      invariant forall id :: id in released ==>
                exists k :: 0 <= k < i && history[k] == released[id] && history[k].id == id
    {
      var event := history[i];
      if event.id !in released {
        released := released[event.id := event];
      }
      ghost var k :| 0 <= k < i + 1 && history[k] == released[event.id] && history[k].id == event.id;
      if IdentityOf(released[event.id]) != IdentityOf(event) || released[event.id].release != event.release {
        return Err("CON-ARCHIVE-003");
      }
    }
    return Ok(released);
  }

  function IndexOf(rows: seq<Event>, id: string): (r: Option<nat>)
    ensures r.Some? <==> HasId(rows, id)
    ensures r.Some? ==> r.value < |rows| && rows[r.value].id == id
  {
    if rows == [] then None
    else if rows[0].id == id then Some(0)
    else match IndexOf(rows[1..], id)
      case None => assert forall k :: 1 <= k < |rows| ==> rows[k] == rows[1..][k - 1]; None
      case Some(k) => Some(k + 1)
  }

  /** One row of `_merge_historical_events`; `merged` is the dictionary in insertion order. */
  function AbsorbRow(merged: seq<Event>, e: Event): Result<seq<Event>, string> {
    if e.id == "" then Err("CON-ARCHIVE-002")
    else match IndexOf(merged, e.id)
      case None => Ok(merged + [e])
      case Some(k) =>
        if IdentityOf(merged[k]) != IdentityOf(e) then Err("CON-ARCHIVE-003")
        else if merged[k].release.Some? && e.release.Some? && merged[k].release != e.release then Err("CON-ARCHIVE-004")
        else if e.status.Released? || !merged[k].status.Released? then Ok(merged[k := e])
        else Ok(merged)
  }

  function AbsorbRows(merged: seq<Event>, rows: seq<Event>): Result<seq<Event>, string>
    decreases |rows|
  {
    if rows == [] then Ok(merged)
    else match AbsorbRow(merged, rows[0])
      case Err(code) => Err(code)
      case Ok(next) => AbsorbRows(next, rows[1..])
  }

  method MergeHistorical(historical: seq<Event>, released: seq<Event>) returns (r: Result<seq<Event>, string>)
    ensures r == AbsorbRows([], historical + released)
  {
    var rows := historical + released;
    var merged: seq<Event> := [];
    for i := 0 to |rows|
      invariant AbsorbRows([], rows) == AbsorbRows(merged, rows[i..])
    {
      var next := AbsorbRow(merged, rows[i]);
      if next.Err? { return next; }
      merged := next.value;
    }
    return Ok(merged);
  }

  /** Same event and same release. */
  predicate SameRelease(a: Event, b: Event) {
    IdentityOf(a) == IdentityOf(b) && a.release == b.release
  }

  ghost predicate AllHistorical(rows: seq<Event>) {
    forall i :: 0 <= i < |rows| ==> HistoricalOk(rows[i])
  }

  ghost predicate Includes(rows: seq<Event>, e: Event) {
    exists i :: 0 <= i < |rows| && SameRelease(rows[i], e)
  }

  lemma {:induction false} AbsorbOne(merged: seq<Event>, e: Event)
    requires AllHistorical(merged) && DistinctIds(merged) && HistoricalOk(e)
    requires forall i :: 0 <= i < |merged| && merged[i].id == e.id ==> SameRelease(merged[i], e)
    ensures AbsorbRow(merged, e).Ok?
    ensures var next := AbsorbRow(merged, e).value;
            && AllHistorical(next) && DistinctIds(next) && Includes(next, e)
            && |merged| <= |next| && (forall i :: 0 <= i < |merged| ==> SameRelease(next[i], merged[i]))
            && (forall i :: |merged| <= i < |next| ==> next[i] == e)
            && (!HasId(merged, e.id) ==> next == merged + [e])
  {
    var next := AbsorbRow(merged, e).value;
    match IndexOf(merged, e.id)
    case None => assert next[|merged|] == e;
    case Some(k) => assert next[k] == e;
  }

  /** Deduplicating a consistent history keeps every event under its release and invents none. */
  lemma {:induction false} AbsorbHistory(merged: seq<Event>, rows: seq<Event>)
    requires AllHistorical(merged + rows) && HistoryConsistent(merged + rows) && DistinctIds(merged)
    ensures AbsorbRows(merged, rows).Ok?
    ensures var all := AbsorbRows(merged, rows).value;
            && AllHistorical(all) && DistinctIds(all)
            && |merged| <= |all| && (forall i :: 0 <= i < |merged| ==> SameRelease(all[i], merged[i]))
            && (forall k :: 0 <= k < |rows| ==> Includes(all, rows[k]))
            && (forall i :: 0 <= i < |all| ==> Includes(merged + rows, all[i]))
    decreases |rows|
  {
    if rows == [] {
      assert forall i :: 0 <= i < |merged| ==> (merged + rows)[i] == merged[i];
    } else {
      var e := rows[0];
      assert (merged + rows)[|merged|] == e;
      forall i | 0 <= i < |merged|
          ensures HistoricalOk(merged[i]) && (merged[i].id == e.id ==> SameRelease(merged[i], e)) {
        assert (merged + rows)[i] == merged[i];
      }
      AbsorbOne(merged, e);
      var next := AbsorbRow(merged, e).value;
      AbsorbStep(merged, rows, next);
      AbsorbHistory(next, rows[1..]);
      var all := AbsorbRows(merged, rows).value;
      forall k | 0 <= k < |rows| ensures Includes(all, rows[k]) {
        if k == 0 {
          var i :| 0 <= i < |next| && SameRelease(next[i], e);
          assert SameRelease(all[i], e);
        } else {
          assert rows[k] == rows[1..][k - 1];
        }
      }
      forall i | 0 <= i < |all| ensures Includes(merged + rows, all[i]) {
        var j :| 0 <= j < |next + rows[1..]| && SameRelease((next + rows[1..])[j], all[i]);
        IncludesBack(merged, rows, next, j);
        var k :| 0 <= k < |merged + rows| && SameRelease((merged + rows)[k], (next + rows[1..])[j]);
        assert SameRelease((merged + rows)[k], all[i]);
      }
    }
  }

  lemma {:induction false} IncludesBack(merged: seq<Event>, rows: seq<Event>, next: seq<Event>, j: nat)
    requires rows != [] && j < |next + rows[1..]|
    requires |merged| <= |next| && (forall i :: 0 <= i < |merged| ==> SameRelease(next[i], merged[i]))
    requires forall i :: |merged| <= i < |next| ==> next[i] == rows[0]
    ensures Includes(merged + rows, (next + rows[1..])[j])
  {
    var all := merged + rows;
    if j < |merged| {
      assert SameRelease(all[j], next[j]);
    } else if j < |next| {
      assert all[|merged|] == rows[0];
    } else {
      assert all[|merged| + 1 + (j - |next|)] == (next + rows[1..])[j];
    }
  }

  lemma {:induction false} AbsorbStep(merged: seq<Event>, rows: seq<Event>, next: seq<Event>)
    requires rows != [] && AllHistorical(merged + rows) && HistoryConsistent(merged + rows) && AllHistorical(next) &&
              DistinctIds(next)
    requires |merged| <= |next| && (forall i :: 0 <= i < |merged| ==> SameRelease(next[i], merged[i]))
    requires forall i :: |merged| <= i < |next| ==> next[i] == rows[0]
    ensures AllHistorical(next + rows[1..]) && HistoryConsistent(next + rows[1..])
  {
    var all, later := merged + rows, next + rows[1..];
    forall j | 0 <= j < |later| ensures HistoricalOk(later[j]) {
      if j >= |next| {
        assert later[j] == all[|merged| + 1 + (j - |next|)];
      }
    }
    forall i, j | 0 <= i < j < |later| && later[i].id == later[j].id ensures SameRelease(later[i], later[j]) {
      IncludesBack(merged, rows, next, i);
      IncludesBack(merged, rows, next, j);
      var a :| 0 <= a < |all| && SameRelease(all[a], later[i]);
      var b :| 0 <= b < |all| && SameRelease(all[b], later[j]);
      assert SameRelease(all[a], all[b]) by {
        if a < b {
        } else if b < a {
          assert all[b].id == all[a].id;
        }
      }
    }
  }

  /** New ids are appended in order. */
  lemma {:induction false} AbsorbFresh(merged: seq<Event>, rows: seq<Event>)
    requires DistinctIds(merged + rows) && forall i :: 0 <= i < |rows| ==> rows[i].id != ""
    ensures AbsorbRows(merged, rows) == Ok(merged + rows)
    decreases |rows|
  {
    if rows == [] {
      assert merged + rows == merged;
    } else {
      assert (merged + rows)[|merged|] == rows[0];
      forall i | 0 <= i < |merged| ensures merged[i].id != rows[0].id {
        assert (merged + rows)[i] == merged[i];
      }
      assert !HasId(merged, rows[0].id);
      assert merged + [rows[0]] + rows[1..] == merged + rows;
      AbsorbFresh(merged + [rows[0]], rows[1..]);
    }
  }

  // ---------------------------------------------------------------- what merging keeps of each id

  /** `e` is a row, and no later row has its id. */
  ghost predicate IsLast(rows: seq<Event>, e: Event) {
    exists k :: 0 <= k < |rows| && rows[k] == e && forall l :: k < l < |rows| ==> rows[l].id != e.id
  }

  /** Each id once, with its last row, in the order in which the ids first occur. */
  ghost predicate KeepsLast(rows: seq<Event>, kept: seq<Event>) {
    && DistinctIds(kept)
    && (forall id :: HasId(kept, id) <==> HasId(rows, id))
    && (forall i :: 0 <= i < |kept| ==> IsLast(rows, kept[i]))
    && (forall i, j :: 0 <= i < j < |kept| ==> FirstBefore(rows, kept[i].id, kept[j].id))
  }

  lemma {:induction false} LastMore(rows: seq<Event>, e: Event, kept: Event)
    requires kept == e || (IsLast(rows, kept) && kept.id != e.id)
    ensures IsLast(rows + [e], kept)
  {
    var all := rows + [e];
    if kept == e {
      assert all[|rows|] == kept;
    } else {
      var k :| 0 <= k < |rows| && rows[k] == kept && forall l :: k < l < |rows| ==> rows[l].id != kept.id;
      assert all[k] == kept && forall l :: k < l < |rows| ==> all[l] == rows[l];
    }
  }

  /** One more row replaces the row of its id in place, or comes last. */
  lemma {:induction false} KeepsLastMore(rows: seq<Event>, kept: seq<Event>, e: Event, next: seq<Event>)
    requires KeepsLast(rows, kept) && HistoricalOk(e) && AbsorbRow(kept, e) == Ok(next)
    ensures KeepsLast(rows + [e], next)
  {
    var at := IndexOf(kept, e.id);
    forall id ensures HasId(next, id) <==> HasId(rows + [e], id) {
      HasIdMore(rows, e, id);
      if at.None? {
        HasIdMore(kept, e, id);
      } else {
        assert HasId(next, id) <==> HasId(kept, id) by {
          assert forall i :: 0 <= i < |kept| ==> next[i].id == kept[i].id;
        }
      }
    }
    forall i | 0 <= i < |next| ensures IsLast(rows + [e], next[i]) {
      LastMore(rows, e, next[i]);
    }
    forall i, j | 0 <= i < j < |next| ensures FirstBefore(rows + [e], next[i].id, next[j].id) {
      if j < |kept| {
        assert FirstBefore(rows, kept[i].id, kept[j].id);
      } else {
        assert HasId(kept, kept[i].id) && HasId(rows, kept[i].id) && !HasId(rows, e.id);
      }
      FirstMore(rows, e, next[i].id, next[j].id);
    }
  }

  lemma {:induction false} AbsorbSnoc(merged: seq<Event>, rows: seq<Event>, e: Event)
    ensures AbsorbRows(merged, rows + [e]) ==
            match AbsorbRows(merged, rows) case Err(code) => Err(code) case Ok(m) => AbsorbRow(m, e)
    decreases |rows|
  {
    if rows == [] {
      assert rows + [e] == [e] && [e][1..] == [];
    } else {
      assert (rows + [e])[0] == rows[0] && (rows + [e])[1..] == rows[1..] + [e];
      if AbsorbRow(merged, rows[0]).Ok? {
        AbsorbSnoc(AbsorbRow(merged, rows[0]).value, rows[1..], e);
      }
    }
  }

  /** A released row is taken into released rows only if it agrees with the row of its id. */
  lemma {:induction false} AbsorbedAgrees(merged: seq<Event>, e: Event, next: seq<Event>)
    requires AllHistorical(merged) && DistinctIds(merged) && HistoricalOk(e) && AbsorbRow(merged, e) == Ok(next)
    ensures AllHistorical(next) && Includes(next, e)
    ensures forall x :: Includes(merged, x) ==> Includes(next, x)
  {
    match IndexOf(merged, e.id)
    case None =>
      assert next[|merged|] == e;
      assert forall i :: 0 <= i < |merged| ==> next[i] == merged[i];
    case Some(k) =>
      assert next[k] == e && SameRelease(merged[k], e);
      assert forall i :: 0 <= i < |merged| && i != k ==> next[i] == merged[i];
  }

  lemma {:induction false} AbsorbedKeeps(rows: seq<Event>)
    requires AllHistorical(rows) && AbsorbRows([], rows).Ok?
    ensures var kept := AbsorbRows([], rows).value;
            AllHistorical(kept) && KeepsLast(rows, kept) && forall i :: 0 <= i < |rows| ==> Includes(kept, rows[i])
    decreases |rows|
  {
    if rows != [] {
      var init, e := rows[..|rows| - 1], rows[|rows| - 1];
      assert rows == init + [e];
      AbsorbSnoc([], init, e);
      AbsorbedKeeps(init);
      var before, next := AbsorbRows([], init).value, AbsorbRows([], rows).value;
      KeepsLastMore(init, before, e, next);
      AbsorbedAgrees(before, e, next);
      forall i | 0 <= i < |rows| ensures Includes(next, rows[i]) {
        if i < |init| {
          assert Includes(before, init[i]);
        }
      }
    }
  }

  lemma {:induction false} IncludedTwice(kept: seq<Event>, x: Event, y: Event)
    requires DistinctIds(kept) && Includes(kept, x) && Includes(kept, y) && x.id == y.id
    ensures SameRelease(x, y)
  {
    var a :| 0 <= a < |kept| && SameRelease(kept[a], x);
    var b :| 0 <= b < |kept| && SameRelease(kept[b], y);
    assert kept[a].id == kept[b].id;
  }

  lemma {:induction false} IncludedConsistent(rows: seq<Event>, kept: seq<Event>)
    requires DistinctIds(kept) && forall i :: 0 <= i < |rows| ==> Includes(kept, rows[i])
    ensures HistoryConsistent(rows)
  {
    forall i, j | 0 <= i < j < |rows| && rows[i].id == rows[j].id ensures SameRelease(rows[i], rows[j]) {
      IncludedTwice(kept, rows[i], rows[j]);
    }
  }

  /**
    Merging released rows fails exactly when two rows of one id differ in content or release, and otherwise
    keeps the last row of each id in the place of the first.
   */
  lemma {:induction false} AbsorbedRows(rows: seq<Event>)
    requires AllHistorical(rows)
    ensures AbsorbRows([], rows).Ok? <==> HistoryConsistent(rows)
    ensures AbsorbRows([], rows).Ok? ==> KeepsLast(rows, AbsorbRows([], rows).value)
  {
    if AbsorbRows([], rows).Ok? {
      AbsorbedKeeps(rows);
      IncludedConsistent(rows, AbsorbRows([], rows).value);
    }
    if HistoryConsistent(rows) {
      assert [] + rows == rows;
      AbsorbHistory([], rows);
    }
  }
}
