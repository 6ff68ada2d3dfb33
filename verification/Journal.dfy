/**
  The roll-forward journal behind every planning mutation (planning/durability.py) and its event
  outbox (planning/events.py).

  The values in this module are what survives a process failure: the planning files, the transaction
  directories, the outbox and what subscribers have received.  Each `Action` is one atomic change of
  those values, so a crash is nothing but stopping after some prefix of the actions of an operation;
  the next operation starts from whatever that prefix left behind.

  `sha256` is modelled by a free constructor: two digests are equal iff the contents are.
 */
module Journal {
  import opened Wrappers

  datatype Digest<C> = Sha256(content: C)

  datatype Event = Event(id: string, kind: string, payload: map<string, string>, metadata: string)

  /** One outbox file: the event under its stable id, with the id added to the payload. */
  datatype OutboxEntry = OutboxEntry(id: string, kind: string, payload: map<string, string>, metadata: string)

  const EVENT_ID_KEY := "planning-event-id"

  function EntryOf(e: Event): OutboxEntry {
    OutboxEntry(
      e.id, e.kind, if EVENT_ID_KEY in e.payload then e.payload else e.payload[EVENT_ID_KEY := e.id], e.metadata)
  }

  /** What an entry tells of an event: its fields and payload as they are, and at most its id as one more key. */
  ghost predicate Tells(x: OutboxEntry, e: Event) {
    && x.id == e.id && x.kind == e.kind && x.metadata == e.metadata
    && (forall k :: k in e.payload ==> k in x.payload && x.payload[k] == e.payload[k])
    && (forall k :: k in x.payload && k !in e.payload ==> k == "planning-event-id" && x.payload[k] == e.id)
    && "planning-event-id" in x.payload
  }

  /** The entry of an event is the only one that tells it. */
  lemma {:induction false} EntryTells(x: OutboxEntry, e: Event)
    ensures Tells(x, e) <==> x == EntryOf(e)
  {
    if Tells(x, e) {
      assert x.payload.Keys == EntryOf(e).payload.Keys;
    }
  }

  /** What a caller of `commit_mutation` asks for; `writes` is a Python mapping, so its paths are distinct. */
  datatype Mutation<P, C> = Mutation(writes: seq<(P, C)>, deletes: seq<P>, event: Option<Event>)

  datatype WriteIntent<P, C> = WriteIntent(path: P, payload: nat, digest: Digest<C>, previous: Option<Digest<C>>)

  datatype DeleteIntent<P, C> = DeleteIntent(path: P, expected: Option<Digest<C>>)

  datatype Manifest<P, C> = Manifest(
    writes: seq<WriteIntent<P, C>>, deletes: seq<DeleteIntent<P, C>>, event: Option<Event>, committed: bool)

  /** A transaction directory; `discardable` says that its name is a staging or legacy transaction name. */
  datatype TxDir<P, C> = TxDir(discardable: bool, payloads: map<nat, C>, manifest: Option<Manifest<P, C>>)

  datatype Refusal =
    | PayloadMissing | PayloadMismatch | UnexpectedWriteTarget | UnexpectedDeleteTarget | NoManifest | EventConflict

  // ---------------------------------------------------------------- intents and their guards

  function DigestAt<P, C>(files: map<P, C>, p: P): Option<Digest<C>> {
    if p in files then Some(Sha256(files[p])) else None
  }

  function WriteEffect<P, C(==)>(
    files: map<P, C>, payloads: map<nat, C>, w: WriteIntent<P, C>): Result<map<P, C>, Refusal>
  {
    if w.payload !in payloads then Err(PayloadMissing)
    else
      var data := payloads[w.payload];
      if Sha256(data) != w.digest then Err(PayloadMismatch)
      else if w.path in files then
        var current := Sha256(files[w.path]);
        if current == w.digest then Ok(files)
        else if w.previous == Some(current) then Ok(files[w.path := data])
        else Err(UnexpectedWriteTarget)
      else Ok(files[w.path := data])
  }

  function DeleteEffect<P, C(==)>(files: map<P, C>, d: DeleteIntent<P, C>): Result<map<P, C>, Refusal> {
    if d.path !in files then Ok(files)
    else if d.expected.Some? && Sha256(files[d.path]) != d.expected.value then Err(UnexpectedDeleteTarget)
    else Ok(files - {d.path})
  }

  /** The files when the loop stops, and why it stopped early if it did. */
  datatype Progress<P, C> = Progress(files: map<P, C>, refused: Option<Refusal>)

  function RunWrites<P, C(==)>(files: map<P, C>, payloads: map<nat, C>, ws: seq<WriteIntent<P, C>>): Progress<P, C>
    decreases |ws|
  {
    if ws == [] then Progress(files, None)
    else match WriteEffect(files, payloads, ws[0])
      case Err(why) => Progress(files, Some(why))
      case Ok(next) => RunWrites(next, payloads, ws[1..])
  }

  function RunDeletes<P, C(==)>(files: map<P, C>, ds: seq<DeleteIntent<P, C>>): Progress<P, C>
    decreases |ds|
  {
    if ds == [] then Progress(files, None)
    else match DeleteEffect(files, ds[0])
      case Err(why) => Progress(files, Some(why))
      case Ok(next) => RunDeletes(next, ds[1..])
  }

  /** All writes, then all deletes; stops at the first refusal. */
  function RollForward<P, C(==)>(files: map<P, C>, payloads: map<nat, C>, m: Manifest<P, C>): Progress<P, C> {
    var afterWrites := RunWrites(files, payloads, m.writes);
    if afterWrites.refused.Some? then afterWrites else RunDeletes(afterWrites.files, m.deletes)
  }

  // ---------------------------------------------------------------- what a mutation means

  function WrittenBy<P, C>(writes: seq<(P, C)>): map<P, C> {
    if writes == [] then map[] else map[writes[0].0 := writes[0].1] + WrittenBy(writes[1..])
  }

  function Elements<T>(s: seq<T>): set<T> {
    set x | x in s
  }

  /** The whole post-state of a mutation, with no journal in sight. */
  function Post<P, C>(files: map<P, C>, m: Mutation<P, C>): map<P, C> {
    (files + WrittenBy(m.writes)) - Elements(m.deletes)
  }

  function Replay<P, C>(files: map<P, C>, ms: seq<Mutation<P, C>>): map<P, C> {
    if ms == [] then files else Post(Replay(files, ms[..|ms| - 1]), ms[|ms| - 1])
  }

  predicate DistinctPaths<P(==), C>(writes: seq<(P, C)>) {
    forall i, j :: 0 <= i < j < |writes| ==> writes[i].0 != writes[j].0
  }

  /**
    The exact condition under which the guards let a mutation through: a path that is both written and
    deleted is absent beforehand or already holds the written content.
   */
  predicate Compatible<P, C(==)>(files: map<P, C>, m: Mutation<P, C>) {
    forall i :: 0 <= i < |m.writes| && m.writes[i].0 in m.deletes ==>
      m.writes[i].0 !in files || files[m.writes[i].0] == m.writes[i].1
  }

  function ManifestOf<P, C>(files: map<P, C>, m: Mutation<P, C>): Manifest<P, C> {
    Manifest(
      seq(|m.writes|, i requires 0 <= i < |m.writes| =>
        WriteIntent(m.writes[i].0, i, Sha256(m.writes[i].1), DigestAt(files, m.writes[i].0))),
      seq(|m.deletes|, j requires 0 <= j < |m.deletes| => DeleteIntent(m.deletes[j], DigestAt(files, m.deletes[j]))),
      m.event, false)
  }

  function PayloadsOf<P, C>(m: Mutation<P, C>): map<nat, C> {
    map k: nat | k < |m.writes| :: m.writes[k].1
  }

  // ---------------------------------------------------------------- rolling forward is safe to repeat

  ghost function Written<P, C>(ws: seq<WriteIntent<P, C>>): map<P, C> {
    if ws == [] then map[] else map[ws[0].path := ws[0].digest.content] + Written(ws[1..])
  }

  ghost function Removed<P, C>(ds: seq<DeleteIntent<P, C>>): set<P> {
    set d | d in ds :: d.path
  }

  ghost function Target<P, C>(files: map<P, C>, m: Manifest<P, C>): map<P, C> {
    (files + Written(m.writes)) - Removed(m.deletes)
  }

  ghost predicate WritesReady<P, C>(files: map<P, C>, payloads: map<nat, C>, ws: seq<WriteIntent<P, C>>) {
    && (forall i, j :: 0 <= i < j < |ws| ==> ws[i].path != ws[j].path)
    && (forall i :: 0 <= i < |ws| ==> ws[i].payload in payloads && Sha256(payloads[ws[i].payload]) == ws[i].digest)
    && (forall i :: 0 <= i < |ws| && ws[i].path in files ==>
          Sha256(files[ws[i].path]) == ws[i].digest || ws[i].previous == Some(Sha256(files[ws[i].path])))
  }

  ghost predicate DeletesReady<P, C>(files: map<P, C>, ds: seq<DeleteIntent<P, C>>) {
    forall j :: 0 <= j < |ds| && ds[j].path in files ==>
        ds[j].expected.None? || ds[j].expected == Some(Sha256(files[ds[j].path]))
  }

  /** Every guard of the manifest will pass, however far an interrupted attempt got. */
  ghost predicate Recoverable<P, C>(files: map<P, C>, payloads: map<nat, C>, m: Manifest<P, C>) {
    WritesReady(files, payloads, m.writes) && DeletesReady(files + Written(m.writes), m.deletes)
  }

  lemma {:induction false} WrittenAt<P, C>(ws: seq<WriteIntent<P, C>>, p: P)
    requires forall i, j :: 0 <= i < j < |ws| ==> ws[i].path != ws[j].path
    ensures p in Written(ws) <==> exists i :: 0 <= i < |ws| && ws[i].path == p
    ensures forall i :: 0 <= i < |ws| && ws[i].path == p ==> Written(ws)[p] == ws[i].digest.content
  {
    if ws != [] {
      WrittenAt(ws[1..], p);
      assert forall i :: 1 <= i < |ws| ==> ws[i] == ws[1..][i - 1];
    }
  }

  lemma {:induction false} WrittenByAt<P, C>(writes: seq<(P, C)>, p: P)
    requires DistinctPaths(writes)
    ensures p in WrittenBy(writes) <==> exists i :: 0 <= i < |writes| && writes[i].0 == p
    ensures forall i :: 0 <= i < |writes| && writes[i].0 == p ==> WrittenBy(writes)[p] == writes[i].1
  {
    if writes != [] {
      WrittenByAt(writes[1..], p);
      assert forall i :: 1 <= i < |writes| ==> writes[i] == writes[1..][i - 1];
    }
  }

  lemma {:induction false} WrittenSame<P, C>(ws: seq<WriteIntent<P, C>>, writes: seq<(P, C)>)
    requires |ws| == |writes|
    requires forall i :: 0 <= i < |ws| ==> ws[i].path == writes[i].0 && ws[i].digest.content == writes[i].1
    ensures Written(ws) == WrittenBy(writes)
  {
    if ws != [] {
      WrittenSame(ws[1..], writes[1..]);
    }
  }

  /** A write that passes its guard always has the effect of storing the new content. */
  lemma {:induction false} ReadyWrite<P, C>(files: map<P, C>, payloads: map<nat, C>, w: WriteIntent<P, C>)
    requires w.payload in payloads && Sha256(payloads[w.payload]) == w.digest
    requires w.path in files ==> Sha256(files[w.path]) == w.digest || w.previous == Some(Sha256(files[w.path]))
    ensures WriteEffect(files, payloads, w) == Ok(files[w.path := w.digest.content])
  {
    assert w.path in files && Sha256(files[w.path]) == w.digest ==> files == files[w.path := w.digest.content];
  }

  /** A delete that passes its guard always has the effect of removing the path. */
  lemma {:induction false} ReadyDelete<P, C>(files: map<P, C>, d: DeleteIntent<P, C>)
    requires DeleteEffect(files, d).Ok?
    ensures DeleteEffect(files, d) == Ok(files - {d.path})
  {
    assert d.path !in files ==> files == files - {d.path};
  }

  lemma {:induction false} RunWritesReaches<P, C>(files: map<P, C>, payloads: map<nat, C>, ws: seq<WriteIntent<P, C>>)
    requires WritesReady(files, payloads, ws)
    ensures RunWrites(files, payloads, ws) == Progress(files + Written(ws), None)
    decreases |ws|
  {
    if ws == [] {
      assert files + Written(ws) == files;
    } else {
      var next := files[ws[0].path := ws[0].digest.content];
      ReadyWrite(files, payloads, ws[0]);
      RunWritesReaches(next, payloads, ws[1..]);
      assert next + Written(ws[1..]) == files + Written(ws);
    }
  }

  lemma {:induction false} RunDeletesReaches<P, C>(files: map<P, C>, ds: seq<DeleteIntent<P, C>>)
    requires DeletesReady(files, ds)
    ensures RunDeletes(files, ds) == Progress(files - Removed(ds), None)
    decreases |ds|
  {
    if ds == [] {
      assert files - Removed(ds) == files;
    } else {
      ReadyDelete(files, ds[0]);
      RunDeletesReaches(files - {ds[0].path}, ds[1..]);
      assert Removed(ds) == {ds[0].path} + Removed(ds[1..]);
      assert (files - {ds[0].path}) - Removed(ds[1..]) == files - Removed(ds);
    }
  }

  /**
    From every state an interrupted attempt can leave, rolling forward passes all guards and reaches the same
    target.
   */
  lemma {:induction false} RollForwardReaches<P, C>(files: map<P, C>, payloads: map<nat, C>, m: Manifest<P, C>)
    requires Recoverable(files, payloads, m)
    ensures RollForward(files, payloads, m) == Progress(Target(files, m), None)
  {
    RunWritesReaches(files, payloads, m.writes);
    RunDeletesReaches(files + Written(m.writes), m.deletes);
  }

  /** A settled state is its own target. */
  lemma {:induction false} TargetSettled<P, C>(files: map<P, C>, m: Manifest<P, C>)
    ensures Target(Target(files, m), m) == Target(files, m)
  {
  }

  /** One guarded write keeps the manifest recoverable and does not move its target. */
  lemma {:induction false} WriteKeepsTarget<P, C>(files: map<P, C>, payloads: map<nat, C>, m: Manifest<P, C>, i: nat)
    requires Recoverable(files, payloads, m) && i < |m.writes|
    ensures WriteEffect(files, payloads, m.writes[i]).Ok?
    ensures var next := WriteEffect(files, payloads, m.writes[i]).value;
            Recoverable(next, payloads, m) && Target(next, m) == Target(files, m)
  {
    var w := m.writes[i];
    var next := files[w.path := w.digest.content];
    ReadyWrite(files, payloads, w);
    WrittenAt(m.writes, w.path);
    assert next + Written(m.writes) == files + Written(m.writes);
    assert WritesReady(next, payloads, m.writes);
  }

  /**
    One guarded delete keeps the manifest recoverable and does not move its target, even before the writes are
    done.
   */
  lemma {:induction false} DeleteKeepsTarget<P, C>(files: map<P, C>, payloads: map<nat, C>, m: Manifest<P, C>, j: nat)
    requires Recoverable(files, payloads, m) && j < |m.deletes|
    requires DeleteEffect(files, m.deletes[j]).Ok?
    ensures var next := DeleteEffect(files, m.deletes[j]).value;
            Recoverable(next, payloads, m) && Target(next, m) == Target(files, m)
  {
    var next := files - {m.deletes[j].path};
    ReadyDelete(files, m.deletes[j]);
    assert m.deletes[j].path in Removed(m.deletes);
    assert DeletesReady(next + Written(m.writes), m.deletes);
    assert Target(next, m) == Target(files, m);
  }

  /** The manifest a commit writes targets exactly the post-state of the mutation. */
  lemma {:induction false} PreparedTarget<P, C>(files: map<P, C>, m: Mutation<P, C>)
    ensures Written(ManifestOf(files, m).writes) == WrittenBy(m.writes)
    ensures Target(files, ManifestOf(files, m)) == Post(files, m)
  {
    WrittenSame(ManifestOf(files, m).writes, m.writes);
    var ds := ManifestOf(files, m).deletes;
    forall p | p in m.deletes ensures p in Removed(ds) {
      var j :| 0 <= j < |m.deletes| && m.deletes[j] == p;
      assert ds[j].path == p;
    }
    assert Removed(ds) == Elements(m.deletes);
  }

  ghost predicate ReplacesNothing<P, C>(files: map<P, C>, m: Mutation<P, C>, p: P) {
    forall i :: 0 <= i < |m.writes| && m.writes[i].0 == p ==> p !in files || files[p] == m.writes[i].1
  }

  lemma {:induction false} PreparedDelete<P, C>(files: map<P, C>, m: Mutation<P, C>, j: nat)
    requires DistinctPaths(m.writes) && j < |m.deletes|
    ensures var d := ManifestOf(files, m).deletes[j];
            var after := files + WrittenBy(m.writes);
            (d.path in after ==> d.expected.None? || d.expected == Some(Sha256(after[d.path])))
            <==> ReplacesNothing(files, m, m.deletes[j])
  {
    WrittenByAt(m.writes, m.deletes[j]);
  }

  lemma {:induction false} PreparedDeletes<P, C>(files: map<P, C>, m: Mutation<P, C>)
    requires DistinctPaths(m.writes)
    ensures DeletesReady(files + WrittenBy(m.writes), ManifestOf(files, m).deletes)
       <==> forall j :: 0 <= j < |m.deletes| ==> ReplacesNothing(files, m, m.deletes[j])
  {
    var ds := ManifestOf(files, m).deletes;
    forall j | 0 <= j < |ds| ensures ds[j].path == m.deletes[j] {
      PreparedDelete(files, m, j);
    }
    if j :| 0 <= j < |m.deletes| && !ReplacesNothing(files, m, m.deletes[j]) {
      PreparedDelete(files, m, j);
      assert ds[j].path in files + WrittenBy(m.writes);
    } else {
      forall j | 0 <= j < |ds| && ds[j].path in files + WrittenBy(m.writes)
        ensures ds[j].expected.None? || ds[j].expected == Some(Sha256((files + WrittenBy(m.writes))[ds[j].path])) {
        assert ReplacesNothing(files, m, m.deletes[j]);
        PreparedDelete(files, m, j);
      }
    }
  }

  lemma {:induction false} CompatibleDeletes<P, C>(files: map<P, C>, m: Mutation<P, C>)
    ensures Compatible(files, m) <==> forall j :: 0 <= j < |m.deletes| ==> ReplacesNothing(files, m, m.deletes[j])
  {
    if !Compatible(files, m) {
      var i :| 0 <= i < |m.writes| && m.writes[i].0 in m.deletes && m.writes[i].0 in files &&
               files[m.writes[i].0] != m.writes[i].1;
      var j :| 0 <= j < |m.deletes| && m.deletes[j] == m.writes[i].0;
      assert !ReplacesNothing(files, m, m.deletes[j]);
    }
  }

  /** A prepared manifest is recoverable iff the mutation is compatible with the files it was prepared on. */
  lemma {:induction false} PreparedRecoverable<P, C>(files: map<P, C>, m: Mutation<P, C>)
    requires DistinctPaths(m.writes)
    ensures WritesReady(files, PayloadsOf(m), ManifestOf(files, m).writes)
    ensures Recoverable(files, PayloadsOf(m), ManifestOf(files, m)) <==> Compatible(files, m)
  {
    PreparedTarget(files, m);
    PreparedDeletes(files, m);
    CompatibleDeletes(files, m);
  }

  // ---------------------------------------------------------------- outside edits are refused

  /** No intent recorded the current content of `p` as one that it may replace or delete. */
  ghost predicate Foreign<P, C>(files: map<P, C>, m: Manifest<P, C>, p: P)
    requires p in files
  {
    && (forall i :: 0 <= i < |m.writes| && m.writes[i].path == p ==> m.writes[i].previous != Some(Sha256(files[p])))
    && (forall j :: 0 <= j < |m.deletes| && m.deletes[j].path == p ==>
          m.deletes[j].expected.Some? && m.deletes[j].expected != Some(Sha256(files[p])))
  }

  lemma {:induction false} WritesSpare<P, C>(files: map<P, C>, payloads: map<nat, C>, ws: seq<WriteIntent<P, C>>, p: P)
    requires p in files
    requires forall i :: 0 <= i < |ws| && ws[i].path == p ==> ws[i].previous != Some(Sha256(files[p]))
    ensures var r := RunWrites(files, payloads, ws);
            && p in r.files && r.files[p] == files[p]
            && ((exists i :: 0 <= i < |ws| && ws[i].path == p && ws[i].digest != Sha256(files[p])) ==> r.refused.Some?)
    decreases |ws|
  {
    if ws != [] && WriteEffect(files, payloads, ws[0]).Ok? {
      assert forall i :: 1 <= i < |ws| ==> ws[i] == ws[1..][i - 1];
      WritesSpare(WriteEffect(files, payloads, ws[0]).value, payloads, ws[1..], p);
    }
  }

  lemma {:induction false} DeletesSpare<P, C>(files: map<P, C>, ds: seq<DeleteIntent<P, C>>, p: P)
    requires p in files
    requires forall j :: 0 <= j < |ds| && ds[j].path == p ==>
              ds[j].expected.Some? && ds[j].expected != Some(Sha256(files[p]))
    ensures var r := RunDeletes(files, ds);
            && p in r.files && r.files[p] == files[p]
            && ((exists j :: 0 <= j < |ds| && ds[j].path == p) ==> r.refused.Some?)
    decreases |ds|
  {
    if ds != [] && DeleteEffect(files, ds[0]).Ok? {
      assert forall j :: 1 <= j < |ds| ==> ds[j] == ds[1..][j - 1];
      DeletesSpare(DeleteEffect(files, ds[0]).value, ds[1..], p);
    }
  }

  /**
    Whatever the manifest and whatever else is on disk, rolling forward keeps a file whose content no
    intent recorded, and refuses when that file is a write target with other content or a delete target.
   */
  lemma {:induction false} ForeignContentSurvives<P, C>(
    files: map<P, C>, payloads: map<nat, C>, m: Manifest<P, C>, p: P)
    requires p in files && Foreign(files, m, p)
    ensures var r := RollForward(files, payloads, m);
            && p in r.files && r.files[p] == files[p]
            && ((exists i :: 0 <= i < |m.writes| && m.writes[i].path == p &&
                  m.writes[i].digest != Sha256(files[p])) ==> r.refused.Some?)
            && ((exists j :: 0 <= j < |m.deletes| && m.deletes[j].path == p) ==> r.refused.Some?)
  {
    WritesSpare(files, payloads, m.writes, p);
    DeletesSpare(RunWrites(files, payloads, m.writes).files, m.deletes, p);
  }

  lemma {:induction false} RunWritesStores<P, C>(
    files: map<P, C>, payloads: map<nat, C>, ws: seq<WriteIntent<P, C>>, i: nat)
    requires forall i, j :: 0 <= i < j < |ws| ==> ws[i].path != ws[j].path
    requires RunWrites(files, payloads, ws).refused.None?
    ensures forall p :: p in files && (forall j :: 0 <= j < |ws| ==> ws[j].path != p) ==>
              p in RunWrites(files, payloads, ws).files && RunWrites(files, payloads, ws).files[p] == files[p]
    ensures i < |ws| ==> var after := RunWrites(files, payloads, ws).files;
            ws[i].path in after && Sha256(after[ws[i].path]) == ws[i].digest
    decreases |ws|
  {
    if ws != [] {
      var next := WriteEffect(files, payloads, ws[0]).value;
      RunWritesStores(next, payloads, ws[1..], if i > 0 then i - 1 else 0);
      assert forall j :: 1 <= j < |ws| ==> ws[j] == ws[1..][j - 1];
    }
  }

  /** The manifest of an incompatible mutation can never be applied, whatever the files become. */
  lemma {:induction false} Wedged<P, C>(files: map<P, C>, m: Mutation<P, C>, disk: map<P, C>)
    requires DistinctPaths(m.writes) && !Compatible(files, m)
    ensures RollForward(disk, PayloadsOf(m), ManifestOf(files, m)).refused.Some?
  {
    var manifest := ManifestOf(files, m);
    var i :| 0 <= i < |m.writes| && m.writes[i].0 in m.deletes && m.writes[i].0 in files &&
        files[m.writes[i].0] != m.writes[i].1;
    if RunWrites(disk, PayloadsOf(m), manifest.writes).refused.None? {
      RunWritesStores(disk, PayloadsOf(m), manifest.writes, i);
      var j :| 0 <= j < |m.deletes| && m.deletes[j] == m.writes[i].0;
      assert manifest.deletes[j].path == m.writes[i].0;
      DeletesSpare(RunWrites(disk, PayloadsOf(m), manifest.writes).files, manifest.deletes, m.writes[i].0);
    }
  }

  /**
    Which mutations the guards let through: rolling a prepared mutation forward succeeds iff it is
    compatible, and an incompatible one is refused on its first and on every later attempt.
   */
  lemma {:induction false} GuardsAccept<P(!new), C(!new)>(files: map<P, C>, m: Mutation<P, C>)
    requires DistinctPaths(m.writes)
    ensures Compatible(files, m) ==>
              RollForward(files, PayloadsOf(m), ManifestOf(files, m)) == Progress(Post(files, m), None)
    ensures !Compatible(files, m) ==>
              forall disk :: RollForward(disk, PayloadsOf(m), ManifestOf(files, m)).refused.Some?
  {
    if Compatible(files, m) {
      PreparedTarget(files, m);
      PreparedRecoverable(files, m);
      RollForwardReaches(files, PayloadsOf(m), ManifestOf(files, m));
    } else {
      forall disk ensures RollForward(disk, PayloadsOf(m), ManifestOf(files, m)).refused.Some? {
        Wedged(files, m, disk);
      }
    }
  }

  lemma {:induction false} RunWritesNeedsPayloads<P, C>(
    files: map<P, C>, payloads: map<nat, C>, ws: seq<WriteIntent<P, C>>)
    ensures RunWrites(files, payloads, ws).refused.None? ==> forall i :: 0 <= i < |ws| ==> ws[i].payload in payloads
    decreases |ws|
  {
    if ws != [] && WriteEffect(files, payloads, ws[0]).Ok? {
      assert forall i :: 1 <= i < |ws| ==> ws[i] == ws[1..][i - 1];
      RunWritesNeedsPayloads(WriteEffect(files, payloads, ws[0]).value, payloads, ws[1..]);
    }
  }

  /**
    Recovery never looks at the manifest's phase, so it needs every payload even of a transaction that
    was fully applied: with some payloads already removed it succeeds iff all that the writes name are left.
   */
  lemma {:induction false} PartialRemoval<P, C>(
    files: map<P, C>, payloads: map<nat, C>, left: map<nat, C>, m: Manifest<P, C>)
    requires Recoverable(files, payloads, m)
    requires forall k :: k in left ==> k in payloads && left[k] == payloads[k]
    ensures RollForward(files, left, m).refused.None? <==> forall i :: 0 <= i < |m.writes| ==>
              m.writes[i].payload in left
  {
    RunWritesNeedsPayloads(files, left, m.writes);
    if forall i :: 0 <= i < |m.writes| ==> m.writes[i].payload in left {
      RollForwardReaches(files, left, m);
    }
  }

  // ---------------------------------------------------------------- durable states and atomic actions

  /**
    `published` and `durable` are history: what subscribers received, and the mutations whose manifest became
    durable.
   */
  datatype World<P, C> = World(
    files: map<P, C>, txns: seq<TxDir<P, C>>, outbox: map<string, OutboxEntry>,
    published: seq<OutboxEntry>, durable: seq<Mutation<P, C>>)

  datatype Action<P, C> =
    | MakeDir
    | PutPayload(name: nat, data: C)
    | Prepare(mutation: Mutation<P, C>)
    | DoWrite(index: nat)
    | DoDelete(index: nat)
    | Enqueue(event: Event)
    | MarkCommitted
    | RemoveDir
    | Publish(id: string)
    | Acknowledge(id: string)

  ghost predicate Issued<P, C>(w: World<P, C>, e: Event) {
    exists i :: 0 <= i < |w.durable| && w.durable[i].event == Some(e)
  }

  ghost predicate FreshId<P, C>(w: World<P, C>, id: string) {
    forall i :: 0 <= i < |w.durable| && w.durable[i].event.Some? ==> w.durable[i].event.value.id != id
  }

  ghost predicate Held<P, C>(w: World<P, C>, x: OutboxEntry) {
    (x.id in w.outbox && w.outbox[x.id] == x) || x in w.published
  }

  ghost predicate Prepared<P, C>(w: World<P, C>) {
    |w.txns| == 1 && w.txns[0].manifest.Some?
  }

  ghost predicate Enabled<P, C>(w: World<P, C>, a: Action<P, C>) {
    match a
    case MakeDir => w.txns == []
    case PutPayload(_, _) => |w.txns| == 1 && w.txns[0].manifest.None?
    case Prepare(m) =>
      && |w.txns| == 1 && w.txns[0].manifest.None? && w.txns[0].payloads == PayloadsOf(m)
      && DistinctPaths(m.writes) && Compatible(w.files, m)
      && (m.event.Some? ==> FreshId(w, m.event.value.id))
    case DoWrite(i) =>
      && Prepared(w) && i < |w.txns[0].manifest.value.writes|
      && WriteEffect(w.files, w.txns[0].payloads, w.txns[0].manifest.value.writes[i]).Ok?
    case DoDelete(j) =>
      && Prepared(w) && j < |w.txns[0].manifest.value.deletes|
      && DeleteEffect(w.files, w.txns[0].manifest.value.deletes[j]).Ok?
    case Enqueue(e) => Issued(w, e) && (e.id in w.outbox ==> w.outbox[e.id] == EntryOf(e))
    case MarkCommitted => Prepared(w)
    case RemoveDir =>
      && |w.txns| == 1
      && (match w.txns[0].manifest
          case None => w.txns[0].discardable
          case Some(m) => w.files == Target(w.files, m) && (m.event.Some? ==> Held(w, EntryOf(m.event.value))))
    case Publish(id) => id in w.outbox
    case Acknowledge(id) => id in w.outbox && w.outbox[id] in w.published
  }

  ghost function Do<P, C>(w: World<P, C>, a: Action<P, C>): World<P, C>
    requires Enabled(w, a)
  {
    match a
    case MakeDir => w.(txns := [TxDir(true, map[], None)])
    case PutPayload(k, data) => w.(txns := [w.txns[0].(payloads := w.txns[0].payloads[k := data])])
    case Prepare(m) => w.(txns := [w.txns[0].(manifest := Some(ManifestOf(w.files, m)))], durable := w.durable + [m])
    case DoWrite(i) => w.(files := WriteEffect(w.files, w.txns[0].payloads, w.txns[0].manifest.value.writes[i]).value)
    case DoDelete(j) => w.(files := DeleteEffect(w.files, w.txns[0].manifest.value.deletes[j]).value)
    case Enqueue(e) => w.(outbox := w.outbox[e.id := EntryOf(e)])
    case MarkCommitted => w.(txns := [w.txns[0].(manifest := Some(w.txns[0].manifest.value.(committed := true)))])
    case RemoveDir => w.(txns := [])
    case Publish(id) => w.(published := w.published + [w.outbox[id]])
    case Acknowledge(id) => w.(outbox := w.outbox - {id})
  }

  /** The files as they will be once the journal has been rolled forward. */
  ghost function Logical<P, C>(w: World<P, C>): map<P, C> {
    if Prepared(w) then Target(w.files, w.txns[0].manifest.value) else w.files
  }

  ghost predicate JournalInv<P, C>(w: World<P, C>) {
    && |w.txns| <= 1
    && (|w.txns| == 1 ==> w.txns[0].discardable)
    && (Prepared(w) ==>
          && Recoverable(w.files, w.txns[0].payloads, w.txns[0].manifest.value)
          && (w.txns[0].manifest.value.event.Some? ==> Issued(w, w.txns[0].manifest.value.event.value)))
  }

  ghost predicate Awaiting<P, C>(w: World<P, C>, e: Event) {
    Prepared(w) && w.txns[0].manifest.value.event == Some(e)
  }

  ghost predicate IssuedEntry<P, C>(w: World<P, C>, x: OutboxEntry) {
    exists i :: 0 <= i < |w.durable| && w.durable[i].event.Some? && EntryOf(w.durable[i].event.value) == x
  }

  ghost predicate EventInv<P, C>(w: World<P, C>) {
    && (forall i, j :: 0 <= i < j < |w.durable| && w.durable[i].event.Some? && w.durable[j].event.Some? ==>
          w.durable[i].event.value.id != w.durable[j].event.value.id)
    && (forall id :: id in w.outbox ==> w.outbox[id].id == id && IssuedEntry(w, w.outbox[id]))
    && (forall x :: x in w.published ==> IssuedEntry(w, x))
    && (forall e :: Issued(w, e) ==> Awaiting(w, e) || Held(w, EntryOf(e)))
  }

  ghost predicate Inv<P, C>(w: World<P, C>) {
    JournalInv(w) && EventInv(w)
  }

  /** A store on which no mutation was ever committed. */
  ghost predicate Initial<P, C>(w: World<P, C>) {
    w.txns == [] && w.outbox == map[] && w.published == [] && w.durable == []
  }

  lemma {:induction false} InitialInv<P, C>(w: World<P, C>)
    requires Initial(w)
    ensures Inv(w) && Logical(w) == w.files
  {
  }

  /** Every action keeps the journal recoverable, and only making a manifest durable moves the logical files. */
  lemma {:induction false} StepJournal<P, C>(w: World<P, C>, a: Action<P, C>)
    requires JournalInv(w) && Enabled(w, a)
    ensures JournalInv(Do(w, a))
    ensures if a.Prepare? then Logical(Do(w, a)) == Post(Logical(w), a.mutation) else Logical(Do(w, a)) == Logical(w)
    ensures Do(w, a).durable == if a.Prepare? then w.durable + [a.mutation] else w.durable
  {
    var next := Do(w, a);
    assert w.durable <= next.durable;
    assert forall e :: Issued(w, e) ==> Issued(next, e);
    match a
    case Prepare(m) =>
      PreparedTarget(w.files, m);
      PreparedRecoverable(w.files, m);
      assert next.durable[|w.durable|] == m;
    case DoWrite(i) => WriteKeepsTarget(w.files, w.txns[0].payloads, w.txns[0].manifest.value, i);
    case DoDelete(j) => DeleteKeepsTarget(w.files, w.txns[0].payloads, w.txns[0].manifest.value, j);
    case _ =>
  }

  lemma {:induction false} IssuedGrows<P, C>(w: World<P, C>, next: World<P, C>)
    requires w.durable <= next.durable
    ensures forall x :: IssuedEntry(w, x) ==> IssuedEntry(next, x)
  {
    forall x | IssuedEntry(w, x) ensures IssuedEntry(next, x) {
      var i :| 0 <= i < |w.durable| && w.durable[i].event.Some? && EntryOf(w.durable[i].event.value) == x;
      assert next.durable[i] == w.durable[i];
    }
  }

  /** What is in the outbox or delivered stays so: an entry leaves the outbox only after it was published. */
  lemma {:induction false} StepHeld<P, C>(w: World<P, C>, a: Action<P, C>, x: OutboxEntry)
    requires Enabled(w, a) && Held(w, x)
    ensures Held(Do(w, a), x)
  {
  }

  lemma {:induction false} StepIssued<P, C>(w: World<P, C>, a: Action<P, C>, e: Event)
    requires EventInv(w) && Enabled(w, a) && Issued(Do(w, a), e)
    ensures Awaiting(Do(w, a), e) || Held(Do(w, a), EntryOf(e))
  {
    if Issued(w, e) {
      if Held(w, EntryOf(e)) {
        StepHeld(w, a, EntryOf(e));
      }
    } else {
      var i :| 0 <= i < |Do(w, a).durable| && Do(w, a).durable[i].event == Some(e);
      assert a.Prepare? && i == |w.durable|;
    }
  }

  lemma {:induction false} StepOutbox<P, C>(w: World<P, C>, a: Action<P, C>, id: string)
    requires EventInv(w) && Enabled(w, a) && id in Do(w, a).outbox
    ensures Do(w, a).outbox[id].id == id && IssuedEntry(Do(w, a), Do(w, a).outbox[id])
  {
    IssuedGrows(w, Do(w, a));
    if a.Enqueue? && a.event.id == id {
      var i :| 0 <= i < |w.durable| && w.durable[i].event == Some(a.event);
      assert EntryOf(w.durable[i].event.value) == Do(w, a).outbox[id];
    }
  }

  /** No action loses an event. */
  lemma {:induction false} StepEvents<P, C>(w: World<P, C>, a: Action<P, C>)
    requires EventInv(w) && Enabled(w, a)
    ensures EventInv(Do(w, a))
  {
    IssuedGrows(w, Do(w, a));
    forall e | Issued(Do(w, a), e) ensures Awaiting(Do(w, a), e) || Held(Do(w, a), EntryOf(e)) {
      StepIssued(w, a, e);
    }
    forall id | id in Do(w, a).outbox
        ensures Do(w, a).outbox[id].id == id && IssuedEntry(Do(w, a), Do(w, a).outbox[id]) {
      StepOutbox(w, a, id);
    }
  }

  // ---------------------------------------------------------------- whole runs

  ghost predicate Legal<P, C>(w: World<P, C>, acts: seq<Action<P, C>>)
    decreases |acts|, 0
  {
    acts == [] || (Legal(w, acts[..|acts| - 1]) && Enabled(Run(w, acts[..|acts| - 1]), acts[|acts| - 1]))
  }

  ghost function Run<P, C>(w: World<P, C>, acts: seq<Action<P, C>>): World<P, C>
    requires Legal(w, acts)
    decreases |acts|, 1
  {
    if acts == [] then w else Do(Run(w, acts[..|acts| - 1]), acts[|acts| - 1])
  }

  /** Stopping after any prefix of a run, as a crash does, is itself a run. */
  lemma {:induction false} LegalPrefix<P, C>(w: World<P, C>, acts: seq<Action<P, C>>, k: nat)
    requires Legal(w, acts) && k <= |acts|
    ensures Legal(w, acts[..k])
    ensures Run(w, acts[..k]).durable <= Run(w, acts).durable
    decreases |acts|
  {
    if k == |acts| {
      assert acts[..k] == acts;
    } else {
      var most := acts[..|acts| - 1];
      LegalPrefix(w, most, k);
      assert most[..k] == acts[..k];
    }
  }

  /**
    Crash atomicity over whole runs: after any sequence of commits, crashes and recoveries the files
    that recovery will produce are the initial ones with exactly the durable mutations applied in order.
   */
  lemma {:induction false} RunIsReplay<P, C>(w: World<P, C>, acts: seq<Action<P, C>>)
    requires Inv(w) && w.durable == [] && Legal(w, acts)
    ensures Inv(Run(w, acts))
    ensures Logical(Run(w, acts)) == Replay(Logical(w), Run(w, acts).durable)
    decreases |acts|
  {
    if acts != [] {
      var most, a := acts[..|acts| - 1], acts[|acts| - 1];
      RunIsReplay(w, most);
      StepJournal(Run(w, most), a);
      StepEvents(Run(w, most), a);
      var before, after := Run(w, most).durable, Run(w, acts).durable;
      assert a.Prepare? ==> after[..|after| - 1] == before;
    }
  }

  /**
    In every reachable state the event of a durable mutation is in the journal, or an entry that tells it
    field by field is in the outbox or delivered.
   */
  lemma {:induction false} AtLeastOnce<P, C>(w: World<P, C>, acts: seq<Action<P, C>>, i: nat)
    requires Inv(w) && w.durable == [] && Legal(w, acts)
    requires i < |Run(w, acts).durable| && Run(w, acts).durable[i].event.Some?
    ensures var now, e := Run(w, acts), Run(w, acts).durable[i].event.value;
            Awaiting(now, e) || exists x :: Held(now, x) && Tells(x, e)
  {
    RunIsReplay(w, acts);
    var now, e := Run(w, acts), Run(w, acts).durable[i].event.value;
    assert Issued(now, e);
    EntryTells(EntryOf(e), e);
  }

  /** Nothing is invented: every entry in the outbox or delivered tells the event of some durable mutation. */
  lemma {:induction false} HeldTells<P, C>(w: World<P, C>, acts: seq<Action<P, C>>, x: OutboxEntry)
    requires Inv(w) && w.durable == [] && Legal(w, acts) && Held(Run(w, acts), x)
    ensures exists e :: Issued(Run(w, acts), e) && Tells(x, e)
  {
    RunIsReplay(w, acts);
    var now := Run(w, acts);
    assert IssuedEntry(now, x);
    var i :| 0 <= i < |now.durable| && now.durable[i].event.Some? && EntryOf(now.durable[i].event.value) == x;
    EntryTells(x, now.durable[i].event.value);
    assert Issued(now, now.durable[i].event.value);
  }

  /**
    An outbox entry disappears only after it was published: once enqueued it is in the outbox or delivered ever
    after.
   */
  lemma {:induction false} EnqueuedIsNeverLost<P, C>(w: World<P, C>, acts: seq<Action<P, C>>, k: nat, x: OutboxEntry)
    requires Legal(w, acts) && k <= |acts| && Legal(w, acts[..k]) && Held(Run(w, acts[..k]), x)
    ensures Held(Run(w, acts), x)
    decreases |acts|
  {
    if k == |acts| {
      assert acts[..k] == acts;
    } else {
      var most := acts[..|acts| - 1];
      assert most[..k] == acts[..k];
      EnqueuedIsNeverLost(w, most, k, x);
      StepHeld(Run(w, most), acts[|acts| - 1], x);
    }
  }

  /** Everything subscribers receive under one id has the same content, however often it is republished. */
  lemma {:induction false} RepublishedIdentically<P, C>(
    w: World<P, C>, acts: seq<Action<P, C>>, x: OutboxEntry, y: OutboxEntry)
    requires Inv(w) && w.durable == [] && Legal(w, acts)
    requires x in Run(w, acts).published && y in Run(w, acts).published && x.id == y.id
    ensures x == y
  {
    RunIsReplay(w, acts);
    var now := Run(w, acts);
    assert IssuedEntry(now, x) && IssuedEntry(now, y);
    var i :| 0 <= i < |now.durable| && now.durable[i].event.Some? && EntryOf(now.durable[i].event.value) == x;
    var j :| 0 <= j < |now.durable| && now.durable[j].event.Some? && EntryOf(now.durable[j].event.value) == y;
    assert i == j;
  }

  /**
    Between the states of a run before and after one durable mutation, every state shows all of it or nothing
    of it.
   */
  lemma {:induction false} AllOrNothing<P, C>(
    w: World<P, C>, acts: seq<Action<P, C>>, start: nat, k: nat, m: Mutation<P, C>)
    requires Inv(w) && w.durable == [] && Legal(w, acts) && start <= k <= |acts|
    requires Legal(w, acts[..start]) && Run(w, acts).durable == Run(w, acts[..start]).durable + [m]
    ensures Legal(w, acts[..k])
    ensures var before, now := Logical(Run(w, acts[..start])), Logical(Run(w, acts[..k]));
            now == before || now == Post(before, m)
  {
    LegalPrefix(w, acts, k);
    assert acts[..k][..start] == acts[..start];
    LegalPrefix(w, acts[..k], start);
    RunIsReplay(w, acts[..start]);
    RunIsReplay(w, acts[..k]);
    var before, now := Run(w, acts[..start]).durable, Run(w, acts[..k]).durable;
    assert now == before || now == before + [m];
    assert (before + [m])[..|before|] == before;
  }

  /** An event that was issued never clashes with an outbox entry. */
  lemma {:induction false} NoConflict<P, C>(w: World<P, C>, e: Event)
    requires EventInv(w) && Issued(w, e) && e.id in w.outbox
    ensures w.outbox[e.id] == EntryOf(e)
  {
    var i :| 0 <= i < |w.durable| && w.durable[i].event == Some(e);
    assert IssuedEntry(w, w.outbox[e.id]);
    var j :| 0 <= j < |w.durable| && w.durable[j].event.Some? && EntryOf(w.durable[j].event.value) == w.outbox[e.id];
    assert i == j;
  }
}
