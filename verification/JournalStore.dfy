/**
  The operations of planning/durability.py and planning/events.py as they run: loops that change the
  file tree, the transaction directories and the outbox in place.

  Every change is followed by its action in the ghost log `acts`.  `Tracked` says that the log is a legal
  run from the initial store and that the fields are where that run leads; the theorems about runs
  in `Journal` therefore speak about every point at which one of these methods can be interrupted.
 */
module JournalStore {
  import opened Wrappers
  import opened Journal

  class Store<P(==, !new), C(==, !new)> {
    var files: map<P, C>
    var txns: seq<TxDir<P, C>>
    var outbox: map<string, OutboxEntry>
    var published: seq<OutboxEntry>
    ghost var durable: seq<Mutation<P, C>>
    ghost var origin: World<P, C>
    ghost var acts: seq<Action<P, C>>

    ghost function Now(): World<P, C>
      reads this
    {
      World(files, txns, outbox, published, durable)
    }

    ghost predicate Tracked()
      reads this
    {
      Initial(origin) && Legal(origin, acts) && Run(origin, acts) == Now()
    }

    constructor (initial: map<P, C>)
      ensures Tracked() && Now() == World(initial, [], map[], [], []) && acts == []
    {
      files, txns, outbox, published, durable := initial, [], map[], [], [];
      origin, acts := World(initial, [], map[], [], []), [];
    }

    lemma {:induction false} TrackedInv()
      requires Tracked()
      ensures Inv(Now())
      ensures Logical(Now()) == Replay(origin.files, durable)
    {
      InitialInv(origin);
      RunIsReplay(origin, acts);
    }

    /** Log the action that led from `before` to the current fields. */
    ghost method Log(before: World<P, C>, a: Action<P, C>)
      requires Initial(origin) && Legal(origin, acts) && Run(origin, acts) == before
      requires Enabled(before, a) && Now() == Do(before, a)
      modifies `acts
      ensures Tracked() && acts == old(acts) + [a]
    {
      acts := acts + [a];
      assert acts[..|acts| - 1] == old(acts);
    }

    method ApplyWrite(payloads: map<nat, C>, w: WriteIntent<P, C>) returns (refused: Option<Refusal>)
      modifies `files
      ensures WriteEffect(old(files), payloads, w) == if refused.None? then Ok(files) else Err(refused.value)
      ensures refused.Some? ==> files == old(files)
    {
      if w.payload !in payloads { return Some(PayloadMissing); }
      var data := payloads[w.payload];
      if Sha256(data) != w.digest { return Some(PayloadMismatch); }
      if w.path in files {
        var current := Sha256(files[w.path]);
        if current == w.digest { return None; }
        if w.previous == Some(current) {
          files := files[w.path := data];
          return None;
        }
        return Some(UnexpectedWriteTarget);
      }
      files := files[w.path := data];
      return None;
    }

    method ApplyDelete(d: DeleteIntent<P, C>) returns (refused: Option<Refusal>)
      modifies `files
      ensures DeleteEffect(old(files), d) == if refused.None? then Ok(files) else Err(refused.value)
      ensures refused.Some? ==> files == old(files)
    {
      if d.path !in files { return None; }
      if d.expected.Some? && Sha256(files[d.path]) != d.expected.value { return Some(UnexpectedDeleteTarget); }
      files := files - {d.path};
      return None;
    }

    method ApplyWrites() returns (refused: Option<Refusal>)
      requires txns != [] && txns[0].manifest.Some?
      modifies `files, `acts
      ensures Progress(files, refused) == RunWrites(old(files), txns[0].payloads, txns[0].manifest.value.writes)
      ensures old(Tracked()) ==> Tracked() && old(acts) <= acts
    {
      var tx := txns[0];
      var ws := tx.manifest.value.writes;
      ghost var tracked := Tracked();
      if tracked {
        TrackedInv();
      }
      for i := 0 to |ws|
        invariant RunWrites(files, tx.payloads, ws[i..]) == RunWrites(old(files), tx.payloads, ws)
        invariant tracked ==> Tracked() && old(acts) <= acts
      {
        ghost var before := Now();
        refused := ApplyWrite(tx.payloads, ws[i]);
        if refused.Some? { return; }
        if tracked {
          Log(before, DoWrite(i));
        }
      }
      return None;
    }

    method ApplyDeletes() returns (refused: Option<Refusal>)
      requires txns != [] && txns[0].manifest.Some?
      modifies `files, `acts
      ensures Progress(files, refused) == RunDeletes(old(files), txns[0].manifest.value.deletes)
      ensures old(Tracked()) ==> Tracked() && old(acts) <= acts
    {
      var ds := txns[0].manifest.value.deletes;
      ghost var tracked := Tracked();
      if tracked {
        TrackedInv();
      }
      for j := 0 to |ds|
        invariant RunDeletes(files, ds[j..]) == RunDeletes(old(files), ds)
        invariant tracked ==> Tracked() && old(acts) <= acts
      {
        ghost var before := Now();
        refused := ApplyDelete(ds[j]);
        if refused.Some? { return; }
        if tracked {
          Log(before, DoDelete(j));
        }
      }
      return None;
    }

    /** Writes first, then deletes, on whatever the disk holds. */
    method ApplyManifest() returns (refused: Option<Refusal>)
      requires txns != [] && txns[0].manifest.Some?
      modifies `files, `acts
      ensures Progress(files, refused) == RollForward(old(files), txns[0].payloads, txns[0].manifest.value)
      ensures old(Tracked()) ==> Tracked() && old(acts) <= acts
    {
      refused := ApplyWrites();
      if refused.None? {
        refused := ApplyDeletes();
      }
    }

    /** Put the event in the outbox; an entry with other content under the same id is refused. */
    method EnqueueEvent(e: Event) returns (refused: Option<Refusal>)
      modifies `outbox, `acts
      ensures refused.None? <==> (e.id in old(outbox) ==> old(outbox)[e.id] == EntryOf(e))
      ensures outbox == if refused.None? then old(outbox)[e.id := EntryOf(e)] else old(outbox)
      ensures refused.None? ==> e.id in outbox && Tells(outbox[e.id], e)
      ensures old(Tracked()) && Issued(old(Now()), e) ==> refused.None? && Tracked() && old(acts) <= acts
    {
      ghost var before := Now();
      ghost var tracked := Tracked() && Issued(before, e);
      EntryTells(EntryOf(e), e);
      if tracked {
        TrackedInv();
        if e.id in outbox {
          NoConflict(before, e);
        }
      }
      if e.id in outbox {
        if outbox[e.id] != EntryOf(e) { return Some(EventConflict); }
        assert outbox == outbox[e.id := EntryOf(e)];
      } else {
        outbox := outbox[e.id := EntryOf(e)];
      }
      if tracked {
        Log(before, Enqueue(e));
      }
      return None;
    }

    /** Mark the first transaction committed and remove its directory. */
    method RemoveFirst(ghost tracked: bool)
      requires txns != [] && txns[0].manifest.Some?
      requires tracked ==>
                 && Tracked()
                 && files == Target(files, txns[0].manifest.value)
                 && (txns[0].manifest.value.event.Some? ==> Held(Now(), EntryOf(txns[0].manifest.value.event.value)))
      modifies `txns, `acts
      ensures txns == old(txns)[1..]
      ensures tracked ==> Tracked() && old(acts) <= acts && txns == []
    {
      if tracked {
        TrackedInv();
      }
      ghost var before := Now();
      txns := [txns[0].(manifest := Some(txns[0].manifest.value.(committed := true)))] + txns[1..];
      if tracked {
        assert txns == [txns[0]];
        Log(before, MarkCommitted);
      }
      before := Now();
      txns := txns[1..];
      if tracked {
        Log(before, RemoveDir);
      }
    }

    /** Finish the first transaction directory; stops, and leaves it, at the first refusal. */
    method FinishFirst() returns (refused: Option<Refusal>)
      requires txns != [] && txns[0].manifest.Some?
      modifies `files, `txns, `outbox, `acts
      ensures txns == if refused.None? then old(txns)[1..] else old(txns)
      ensures files == RollForward(old(files), old(txns)[0].payloads, old(txns)[0].manifest.value).files
      ensures RollForward(old(files), old(txns)[0].payloads, old(txns)[0].manifest.value).refused.Some? ==>
                refused.Some?
      ensures old(Tracked()) ==>
                && refused.None? && Tracked() && old(acts) <= acts
                && files == Logical(old(Now())) && txns == []
    {
      ghost var start := Now();
      ghost var tracked := Tracked();
      if tracked {
        TrackedInv();
        RollForwardReaches(files, txns[0].payloads, txns[0].manifest.value);
      }
      refused := ApplyManifest();
      if refused.Some? { return; }
      var m := txns[0].manifest.value;
      if m.event.Some? {
        assert Issued(start, m.event.value) ==> Issued(Now(), m.event.value);
        refused := EnqueueEvent(m.event.value);
        if refused.Some? { return; }
      }
      if tracked {
        TargetSettled(start.files, m);
      }
      RemoveFirst(tracked);
    }

    /** Roll forward every prepared transaction and discard half-staged directories. */
    method Reconcile() returns (r: Result<nat, Refusal>)
      modifies `files, `txns, `outbox, `acts
      ensures r.Ok? ==> txns == []
      ensures old(txns) == [] ==> r == Ok(0) && files == old(files) && outbox == old(outbox) && acts == old(acts)
      ensures forall p :: p in old(files) && SparedByAll(old(files), old(txns), p) ==>
                p in files && files[p] == old(files)[p]
      ensures old(txns) != [] && NeverApplies(old(txns)[0]) ==> r.Err? && txns == old(txns)
      ensures old(Tracked()) ==>
                && Tracked() && old(acts) <= acts
                && r == Ok(if Prepared(old(Now())) then 1 else 0)
                && files == Logical(old(Now()))
    {
      var repaired := 0;
      ghost var start := Now();
      ghost var tracked := Tracked();
      if tracked {
        TrackedInv();
      }
      ghost var n := 0;
      while txns != []
        invariant n <= |start.txns| && txns == start.txns[n..]
        invariant start.txns != [] && NeverApplies(start.txns[0]) ==> n == 0
        invariant start.txns == [] ==>
                  repaired == 0 && files == start.files && outbox == start.outbox && acts == old(acts)
        invariant forall p :: p in start.files && SparedByAll(start.files, start.txns, p) ==>
                  p in files && files[p] == start.files[p]
        invariant tracked ==>
                    && Tracked() && old(acts) <= acts
                    && ((Now() == start && repaired == 0) ||
                          (txns == [] && files == Logical(start) && repaired == if Prepared(start) then 1 else 0))
        decreases |txns|
      {
        assert start.txns[n..][1..] == start.txns[n + 1..];
        if txns[0].manifest.None? {
          if !txns[0].discardable { return Err(NoManifest); }
          ghost var before := Now();
          txns := txns[1..];
          if tracked {
            Log(before, RemoveDir);
          }
        } else {
          forall p | p in start.files && SparedByAll(start.files, start.txns, p)
            ensures var after := RollForward(files, txns[0].payloads, txns[0].manifest.value).files;
                    p in after && after[p] == start.files[p] {
            assert start.txns[n] == txns[0];
            ForeignContentSurvives(files, txns[0].payloads, txns[0].manifest.value, p);
          }
          var refused := FinishFirst();
          if refused.Some? { return Err(refused.value); }
          repaired := repaired + 1;
        }
        n := n + 1;
      }
      return Ok(repaired);
    }

    /** Write one payload file. */
    method StagePayload(k: nat, data: C, ghost tracked: bool)
      requires |txns| == 1 && txns[0].manifest.None? && (tracked ==> Tracked())
      modifies `txns, `acts
      ensures txns == [old(txns)[0].(payloads := old(txns)[0].payloads[k := data])]
      ensures tracked ==> Tracked() && old(acts) <= acts
    {
      ghost var before := Now();
      txns := [txns[0].(payloads := txns[0].payloads[k := data])];
      if tracked {
        Log(before, PutPayload(k, data));
      }
    }

    /** What each path to delete holds when the mutation is staged. */
    method DeleteIntents(m: Mutation<P, C>) returns (removals: seq<DeleteIntent<P, C>>)
      ensures removals == ManifestOf(files, m).deletes
    {
      removals := [];
      for k := 0 to |m.deletes|
        invariant |removals| == k && forall j :: 0 <= j < k ==> removals[j] == ManifestOf(files, m).deletes[j]
      {
        removals := removals + [DeleteIntent(m.deletes[k], DigestAt(files, m.deletes[k]))];
      }
    }

    /** Stage the payloads of a mutation in a new directory and return the intents for its manifest. */
    method Stage(m: Mutation<P, C>) returns (manifest: Manifest<P, C>)
      requires txns == []
      modifies `txns, `acts
      ensures manifest == ManifestOf(files, m)
      ensures txns == [TxDir(true, PayloadsOf(m), None)]
      ensures old(Tracked()) ==> Tracked() && old(acts) <= acts
    {
      ghost var tracked := Tracked();
      ghost var before := Now();
      txns := [TxDir(true, map[], None)];
      if tracked {
        Log(before, MakeDir);
      }
      var intents: seq<WriteIntent<P, C>> := [];
      for k := 0 to |m.writes|
        invariant intents == ManifestOf(files, m).writes[..k]
        invariant txns == [TxDir(true, Staged(m, k), None)]
        invariant tracked ==> Tracked() && old(acts) <= acts
      {
        StagedNext(m, k);
        StagePayload(k, m.writes[k].1, tracked);
        intents := intents + [WriteIntent(m.writes[k].0, k, Sha256(m.writes[k].1), DigestAt(files, m.writes[k].0))];
      }
      var removals := DeleteIntents(m);
      manifest := Manifest(intents, removals, m.event, false);
    }

    /** Reconcile, stage the mutation and make its manifest durable: the commit point of a mutation. */
    method Begin(m: Mutation<P, C>)
      requires Tracked() && DistinctPaths(m.writes)
      requires m.event.Some? ==> FreshId(Now(), m.event.value.id)
      modifies `files, `txns, `outbox, `durable, `acts
      ensures old(acts) <= acts && durable == old(durable) + [m]
      ensures files == Logical(old(Now()))
      ensures txns == [TxDir(true, PayloadsOf(m), Some(ManifestOf(files, m)))]
      ensures Compatible(files, m) ==> Tracked()
    {
      var _ := Reconcile();
      var manifest := Stage(m);
      ghost var before := Now();
      txns := [txns[0].(manifest := Some(manifest))];
      durable := durable + [m];
      if Compatible(files, m) {
        Log(before, Prepare(m));
      }
    }

    /**
      Commit a mutation on whatever earlier crashes left behind.  It succeeds iff the mutation is
      compatible with the logical files, and then every state in which it can be interrupted
      shows, after recovery, the whole mutation or nothing of it.
     */
    method Commit(m: Mutation<P, C>) returns (r: Result<(), Refusal>)
      requires Tracked() && DistinctPaths(m.writes)
      requires m.event.Some? ==> FreshId(Now(), m.event.value.id)
      modifies `files, `txns, `outbox, `durable, `acts
      ensures r.Ok? <==> Compatible(Logical(old(Now())), m)
      ensures r.Ok? ==>
                && Tracked() && old(acts) <= acts && txns == [] && durable == old(durable) + [m]
                && files == Post(Logical(old(Now())), m)
      ensures r.Ok? && m.event.Some? ==> exists x :: Held(Now(), x) && Tells(x, m.event.value)
      ensures r.Ok? ==> AlwaysAllOrNothing(origin, acts, |old(acts)|, Logical(old(Now())), m)
      ensures r.Err? ==> |txns| == 1 && NeverApplies(txns[0])
    {
      Begin(m);
      PreparedOutcome(files, m);
      var refused := FinishFirst();
      if refused.Some? { return Err(refused.value); }
      CommitIsAtomic(origin, old(acts), acts, m);
      if m.event.Some? {
        EventIsHeld(origin, acts, m);
      }
      return Ok(());
    }

    /**
      Publish the outbox in listing order until a subscriber fails; an entry is unlinked only after its
      publication.  `accepts` stands for the subscribers.
     */
    method Drain(listing: seq<string>, accepts: OutboxEntry -> bool) returns (delivered: nat, failed: nat)
      requires forall i :: 0 <= i < |listing| ==> listing[i] in outbox
      requires forall i, j :: 0 <= i < j < |listing| ==> listing[i] != listing[j]
      modifies `outbox, `published, `acts
      ensures delivered <= |listing|
      ensures outbox == old(outbox) - Elements(listing[..delivered])
      ensures published == old(published) + EntriesAt(old(outbox), listing[..delivered])
      ensures forall i :: 0 <= i < delivered ==> accepts(old(outbox)[listing[i]])
      ensures if delivered < |listing| then failed == 1 && !accepts(old(outbox)[listing[delivered]]) else failed == 0
      ensures old(Tracked()) ==> Tracked() && old(acts) <= acts
    {
      ghost var tracked := Tracked();
      delivered, failed := 0, 0;
      assert outbox == old(outbox) - Elements(listing[..0]);
      assert published == old(published) + EntriesAt(old(outbox), listing[..0]);
      while delivered < |listing|
        invariant delivered <= |listing|
        invariant outbox == old(outbox) - Elements(listing[..delivered])
        invariant published == old(published) + EntriesAt(old(outbox), listing[..delivered])
        invariant forall i :: 0 <= i < delivered ==> accepts(old(outbox)[listing[i]])
        invariant tracked ==> Tracked() && old(acts) <= acts
      {
        var id := listing[delivered];
        assert id in outbox && outbox[id] == old(outbox)[id];
        if !accepts(outbox[id]) {
          failed := 1;
          break;
        }
        Deliver(id);
        assert listing[..delivered + 1] == listing[..delivered] + [id];
        assert EntriesAt(old(outbox), listing[..delivered + 1]) ==
            EntriesAt(old(outbox), listing[..delivered]) + [old(outbox)[id]];
        assert Elements(listing[..delivered + 1]) == Elements(listing[..delivered]) + {id};
        delivered := delivered + 1;
      }
    }

    /** Publish one entry, then unlink it. */
    method Deliver(id: string)
      requires id in outbox
      modifies `outbox, `published, `acts
      ensures published == old(published) + [old(outbox)[id]]
      ensures outbox == old(outbox) - {id}
      ensures old(Tracked()) ==> Tracked() && old(acts) <= acts
    {
      ghost var tracked := Tracked();
      ghost var before := Now();
      published := published + [outbox[id]];
      if tracked {
        Log(before, Publish(id));
      }
      before := Now();
      outbox := outbox - {id};
      if tracked {
        Log(before, Acknowledge(id));
      }
    }
  }

  /** The payloads of the first `k` writes. */
  ghost function Staged<P, C>(m: Mutation<P, C>, k: nat): map<nat, C>
    requires k <= |m.writes|
  {
    map i: nat | i < k :: m.writes[i].1
  }

  lemma {:induction false} StagedNext<P, C>(m: Mutation<P, C>, k: nat)
    requires k < |m.writes|
    ensures Staged(m, k + 1) == Staged(m, k)[k := m.writes[k].1]
  {
  }

  /** With the journal empty, the event of the last mutation is in the outbox or published. */
  lemma {:induction false} EventIsHeld<P, C>(w: World<P, C>, acts: seq<Action<P, C>>, m: Mutation<P, C>)
    requires Initial(w) && Legal(w, acts) && Run(w, acts).txns == [] && m.event.Some?
    requires Run(w, acts).durable != [] && Run(w, acts).durable[|Run(w, acts).durable| - 1] == m
    ensures exists x :: Held(Run(w, acts), x) && Tells(x, m.event.value)
  {
    InitialInv(w);
    AtLeastOnce(w, acts, |Run(w, acts).durable| - 1);
  }

  /** The entries of an outbox under the given names. */
  function EntriesAt(box: map<string, OutboxEntry>, names: seq<string>): seq<OutboxEntry>
    requires forall i :: 0 <= i < |names| ==> names[i] in box
  {
    seq(|names|, i requires 0 <= i < |names| => box[names[i]])
  }

  /** From action `start` on, every state of the run logically shows `before` or `before` with all of `m` applied. */
  ghost predicate AlwaysAllOrNothing<P, C>(
    w: World<P, C>, acts: seq<Action<P, C>>, start: nat, before: map<P, C>, m: Mutation<P, C>)
  {
    forall k :: start <= k <= |acts| ==>
      Legal(w, acts[..k]) && (Logical(Run(w, acts[..k])) == before || Logical(Run(w, acts[..k])) == Post(before, m))
  }

  lemma {:induction false} CommitIsAtomic<P, C>(
    w: World<P, C>, earlier: seq<Action<P, C>>, acts: seq<Action<P, C>>, m: Mutation<P, C>)
    requires Initial(w) && Legal(w, earlier) && Legal(w, acts) && earlier <= acts
    requires Run(w, acts).durable == Run(w, earlier).durable + [m]
    ensures AlwaysAllOrNothing(w, acts, |earlier|, Logical(Run(w, earlier)), m)
  {
    InitialInv(w);
    assert acts[..|earlier|] == earlier;
    forall k | |earlier| <= k <= |acts|
      ensures Legal(w, acts[..k])
      ensures Logical(Run(w, acts[..k])) == Logical(Run(w, earlier)) ||
                Logical(Run(w, acts[..k])) == Post(Logical(Run(w, earlier)), m) {
      AllOrNothing(w, acts, |earlier|, k, m);
    }
  }

  /** The manifest of this transaction is refused whatever the files are. */
  ghost predicate NeverApplies<P(!new), C(!new)>(tx: TxDir<P, C>) {
    tx.manifest.Some? && forall disk :: RollForward(disk, tx.payloads, tx.manifest.value).refused.Some?
  }

  lemma {:induction false} PreparedOutcome<P(!new), C(!new)>(files: map<P, C>, m: Mutation<P, C>)
    requires DistinctPaths(m.writes)
    ensures var tx := TxDir(true, PayloadsOf(m), Some(ManifestOf(files, m)));
            && Target(files, ManifestOf(files, m)) == Post(files, m)
            && if Compatible(files, m) then
                  RollForward(files, tx.payloads, tx.manifest.value).refused.None?
                else NeverApplies(tx)
  {
    PreparedTarget(files, m);
    GuardsAccept(files, m);
  }

  /** No manifest in the journal recorded the content of `p` as one it may replace or delete. */
  ghost predicate SparedByAll<P, C>(files: map<P, C>, txns: seq<TxDir<P, C>>, p: P)
    requires p in files
  {
    forall t :: 0 <= t < |txns| && txns[t].manifest.Some? ==> Foreign(files, txns[t].manifest.value, p)
  }
}
