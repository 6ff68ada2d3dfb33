/** What every run of planning operations keeps, with a crash possible at every journal action. */
module PlanningRuns {
  import opened Wrappers
  import opened Journal
  import opened Planning
  import opened RecordIds

  // ---------------------------------------------------------------- the invariant

  ghost predicate HasParent(repo: Repo, r: RecordPath)
    requires r.ReviewPath?
  {
    ItemPath(ActiveTree, r.plan, r.parent) in repo || ItemPath(CompletedTree, r.plan, r.parent) in repo
  }

  ghost predicate ReviewsClosed(repo: Repo, id: string) {
    forall r :: r in repo && r.ReviewPath? && r.parent == id && repo[r].ReviewDoc? ==> repo[r].rstate.Closed?
  }

  ghost predicate CompletionOk(repo: Repo, p: RecordPath)
    requires p in repo
  {
    p.ItemPath? && repo[p].ItemDoc? && repo[p].istate.Finished? ==>
        HasEvidence(repo[p].sections) && ReviewsClosed(repo, p.stem)
  }

  /** Ids are unique, records are where their state says, reviews have parents, and completed items are really done. */
  ghost predicate PlanningInv(repo: Repo) {
    && (forall p :: p in repo ==> RecordOk(p, repo[p]))
    && (forall p, q :: p in repo && q in repo && p.stem == q.stem ==> p == q)
    && (forall p :: p in repo && p.ReviewPath? ==> HasParent(repo, p))
    && (forall p :: p in repo ==> CompletionOk(repo, p))
  }

  // ---------------------------------------------------------------- allocated ids

  function UpperChar(c: char): char {
    if IsLower(c) then 'A' + (c - 'a') else c
  }

  function Upper(s: string): string {
    seq(|s|, i requires 0 <= i < |s| => UpperChar(s[i]))
  }

  predicate PlanHasItems(repo: Repo, plan: string) {
    exists p :: p in repo && p.ItemPath? && p.plan == plan
  }

  /** `id` is `prefix` followed by a number. */
  predicate Numbered(id: string, prefix: string) {
    |prefix| < |id| && id[..|prefix|] == prefix && AllDigits(id[|prefix|..])
  }

  /** `next_item_id`: the prefix some item of the plan already uses, or the first two slug letters in an empty plan. */
  ghost predicate AutoId(repo: Repo, plan: string, id: string) {
    if PlanHasItems(repo, plan) then
      exists p :: p in repo && p.ItemPath? && p.plan == plan && IsItemId(p.stem) &&
          Numbered(id, p.stem[..Capitals(p.stem)])
    else Numbered(id, Upper(if |plan| > 2 then plan[..2] else plan))
  }

  ghost predicate Allocated(repo: Repo, op: Op) {
    && (op.CreateItem? && op.given.None? ==> AutoId(repo, op.plan, op.auto))
    && (op.CreateReview? && op.given.None? ==> IsReviewId(op.auto))
  }

  /** The one input that defeats id allocation: an automatic id in an item-less plan whose slug starts with "rv". */
  predicate GuessesReviewPrefix(repo: Repo, op: Op) {
    op.CreateItem? && op.given.None? && !PlanHasItems(repo, op.plan) && |op.plan| >= 2 && op.plan[0] == 'r' &&
        op.plan[1] == 'v'
  }

  lemma {:induction false} AutoIdIsReviewId(repo: Repo, plan: string, id: string)
    requires PlanningInv(repo) && IsSlug(plan) && AutoId(repo, plan, id)
    ensures StartsRV(id) <==> !PlanHasItems(repo, plan) && |plan| >= 2 && plan[0] == 'r' && plan[1] == 'v'
  {
    if PlanHasItems(repo, plan) {
      var p :| p in repo && p.ItemPath? && p.plan == plan && IsItemId(p.stem) &&
          Numbered(id, p.stem[..Capitals(p.stem)]);
      var n := Capitals(p.stem);
      assert id[0] == p.stem[..n][0];
      if n == 1 {
        assert id[1] == id[n..][0];
      } else {
        assert id[1] == id[..n][1];
      }
    } else {
      var prefix := Upper(if |plan| > 2 then plan[..2] else plan);
      assert id[0] == prefix[0];
      if |plan| == 1 {
        assert id[1] == id[1..][0];
      } else {
        assert id[1] == prefix[1];
      }
    }
  }

  // ---------------------------------------------------------------- lookup

  /** In a sound repository a miss means that no record, item or review, has the id. */
  lemma {:induction false} MissIsMiss(repo: Repo, id: string)
    requires PlanningInv(repo) && FindItem(repo, id) == Ok(None)
    ensures forall p :: p in repo ==> p.stem != id
  {
    forall p | p in repo ensures p.stem != id {
      assert RecordOk(p, repo[p]);
      assert p.stem == id ==> p in Matches(repo, id);
    }
  }

  // ---------------------------------------------------------------- what the mutations do

  lemma {:induction false} PostWrite(repo: Repo, p: RecordPath, d: Document, event: Option<Event>)
    ensures Post(repo, Mutation([(p, d)], [], event)) == repo[p := d]
  {
    assert WrittenBy([(p, d)]) == map[p := d] + WrittenBy([(p, d)][1..]);
  }

  lemma {:induction false} PostMove(repo: Repo, p: RecordPath, d: Document, q: RecordPath, event: Option<Event>)
    ensures Post(repo, Mutation([(p, d)], [q], event)) == repo[p := d] - {q}
  {
    assert WrittenBy([(p, d)]) == map[p := d] + WrittenBy([(p, d)][1..]);
    assert Elements([q]) == {q};
  }

  lemma {:induction false} PostTwo(
    repo: Repo, p: RecordPath, d: Document, q: RecordPath, e: Document, event: Option<Event>)
    requires p != q
    ensures Post(repo, Mutation([(p, d), (q, e)], [], event)) == repo[p := d][q := e]
  {
    var ws := [(p, d), (q, e)];
    assert ws[1..] == [(q, e)] && ws[1..][1..] == [];
    assert WrittenBy(ws[1..]) == map[q := e] + WrittenBy(ws[1..][1..]);
    assert WrittenBy(ws) == map[p := d] + WrittenBy(ws[1..]);
  }

  ghost predicate Accepted(repo: Repo, op: Op, event: Option<Event>, m: Change) {
    PlanningInv(repo) && Allocated(repo, op) && Decide(repo, op, event) == Ok(m)
  }

  // One record rewritten, and possibly moved to the other bucket.
  lemma {:induction false} Relocate(repo: Repo, p: RecordPath, t: RecordPath, d: Document)
    requires PlanningInv(repo) && p in repo && RecordOk(t, d)
    requires p.ItemPath? == t.ItemPath? && p.plan == t.plan && p.stem == t.stem &&
              (p.ReviewPath? ==> p.parent == t.parent)
    requires p.ItemPath? && d.istate.Finished? ==> HasEvidence(d.sections) && ReviewsClosed(repo, p.stem)
    requires p.ReviewPath? && ReviewOpen(d.rstate) ==>
               forall q :: q in repo && q.ItemPath? && q.stem == p.parent && repo[q].ItemDoc? ==>
                   !repo[q].istate.Finished?
    ensures PlanningInv((repo - {p})[t := d])
  {
    var after := (repo - {p})[t := d];
    forall r | r in after && r.ReviewPath? ensures HasParent(after, r) {
      assert HasParent(repo, if r == t then p else r);
    }
    forall q | q in after ensures CompletionOk(after, q) {
      if q != t {
        assert CompletionOk(repo, q) && RecordOk(q, repo[q]);
      }
    }
  }

  lemma {:induction false} AddItem(repo: Repo, p: RecordPath, d: Document)
    requires PlanningInv(repo) && p.ItemPath? && RecordOk(p, d) && !d.istate.Finished?
    requires forall q :: q in repo ==> q.stem != p.stem
    ensures PlanningInv(repo[p := d])
  {
    var after := repo[p := d];
    forall r | r in after && r.ReviewPath? ensures HasParent(after, r) {
      assert HasParent(repo, r);
    }
    forall q | q in after ensures CompletionOk(after, q) {
      if q != p {
        assert CompletionOk(repo, q);
      }
    }
  }

  lemma {:induction false} AddReview(repo: Repo, r: RecordPath, d: Document)
    requires PlanningInv(repo) && r.ReviewPath? && RecordOk(r, d) && HasParent(repo, r)
    requires forall q :: q in repo ==> q.stem != r.stem
    requires forall q :: q in repo && q.ItemPath? && q.stem == r.parent && repo[q].ItemDoc? ==>
              !repo[q].istate.Finished?
    ensures PlanningInv(repo[r := d])
  {
    var after := repo[r := d];
    forall q | q in after && q.ReviewPath? ensures HasParent(after, q) {
      assert HasParent(repo, q);
    }
    forall q | q in after ensures CompletionOk(after, q) {
      if q != r {
        assert CompletionOk(repo, q) && RecordOk(q, repo[q]);
      }
    }
  }

  lemma {:induction false} Remove(repo: Repo, p: RecordPath)
    requires PlanningInv(repo)
    requires p.ItemPath? ==> forall r :: r in repo && r.ReviewPath? ==> r.parent != p.stem
    ensures PlanningInv(repo - {p})
  {
    var after := repo - {p};
    forall r | r in after && r.ReviewPath? ensures HasParent(after, r) {
      assert HasParent(repo, r);
    }
    forall q | q in after ensures CompletionOk(after, q) {
      assert CompletionOk(repo, q);
    }
  }

  lemma {:induction false} CreateItemKeeps(repo: Repo, op: Op, event: Option<Event>, m: Change)
    requires Accepted(repo, op, event, m) && op.CreateItem?
    ensures PlanningInv(Post(repo, m)) <==> !GuessesReviewPrefix(repo, op)
  {
    var id := if op.given.Some? then op.given.value else op.auto;
    var p, d := ItemPath(ActiveTree, op.plan, id), ItemDoc(id, op.plan, Pending, op.sections, []);
    PostWrite(repo, p, d, event);
    MissIsMiss(repo, id);
    if op.given.None? {
      AutoIdIsReviewId(repo, op.plan, id);
    }
    if GuessesReviewPrefix(repo, op) {
      assert !RecordOk(p, Post(repo, m)[p]);
    } else {
      AddItem(repo, p, d);
    }
  }

  lemma {:induction false} OpenReviewsRefused(repo: Repo, id: string)
    requires PlanningInv(repo)
    requires !HasOpenReview(repo, id)
    ensures ReviewsClosed(repo, id)
  {
    forall r | r in repo && r.ReviewPath? && r.parent == id && repo[r].ReviewDoc? ensures repo[r].rstate.Closed? {
      assert RecordOk(r, repo[r]);
      assert r in ReviewsOf(repo, id);
    }
  }

  /** What an accepted state change writes, and what it has checked. */
  lemma {:induction false} SetStateDecision(
    repo: Repo, id: string, name: string, event: Option<Event>, m: Change, p: RecordPath, d: Document)
    requires PlanningInv(repo) && DecideSetState(repo, id, name, event) == Ok(m)
    requires p == RequireItem(repo, id).value && m.writes[0].1 == d
    ensures p in repo && p.ItemPath? && d.ItemDoc? && d == repo[p].(istate := d.istate)
    ensures var target := ItemPath(ItemBucket(d.istate), p.plan, p.stem);
            m == Mutation([(target, d)], if target != p then [p] else [], event)
    ensures d.istate.Finished? ==> HasEvidence(d.sections) && ReviewsClosed(repo, p.stem)
  {
    if d.istate.Finished? {
      OpenReviewsRefused(repo, id);
    }
  }

  /** A record rewritten at its path or moved to another one. */
  lemma {:induction false} PostRelocate(
    repo: Repo, p: RecordPath, target: RecordPath, d: Document, event: Option<Event>)
    requires p in repo
    ensures Post(repo, Mutation([(target, d)], if target != p then [p] else [], event)) == (repo - {p})[target := d]
  {
    PostWrite(repo, target, d, event);
    PostMove(repo, target, d, p, event);
  }

  lemma {:induction false} SetStateKeeps(repo: Repo, id: string, state: string, event: Option<Event>, m: Change)
    requires PlanningInv(repo) && DecideSetState(repo, id, state, event) == Ok(m)
    ensures PlanningInv(Post(repo, m))
  {
    var p, d := RequireItem(repo, id).value, m.writes[0].1;
    SetStateDecision(repo, id, state, event, m, p, d);
    PostRelocate(repo, p, ItemPath(ItemBucket(d.istate), p.plan, p.stem), d, event);
    Relocate(repo, p, ItemPath(ItemBucket(d.istate), p.plan, p.stem), d);
  }

  /** What an accepted update writes, and what it has checked. */
  lemma {:induction false} UpdateItemDecision(
    repo: Repo, op: Op, event: Option<Event>, m: Change, p: RecordPath, d: Document)
    requires PlanningInv(repo) && op.UpdateItem? && DecideUpdateItem(repo, op, event) == Ok(m)
    requires p == RequireItem(repo, op.id).value && m.writes[0].1 == d
    ensures p in repo && p.ItemPath? && repo[p].ItemDoc? && m == Mutation([(p, d)], [], event)
    ensures d.ItemDoc? && d == repo[p].(sections := d.sections, links := d.links)
    ensures d.istate.Finished? ==> HasEvidence(d.sections)
  {
  }

  lemma {:induction false} UpdateItemKeeps(repo: Repo, op: Op, event: Option<Event>, m: Change)
    requires PlanningInv(repo) && op.UpdateItem? && DecideUpdateItem(repo, op, event) == Ok(m)
    ensures PlanningInv(Post(repo, m))
  {
    var p, d := RequireItem(repo, op.id).value, m.writes[0].1;
    UpdateItemDecision(repo, op, event, m, p, d);
    PostWrite(repo, p, d, event);
    assert Post(repo, m) == (repo - {p})[p := d];
    assert CompletionOk(repo, p);
    Relocate(repo, p, p, d);
  }

  lemma {:induction false} DeleteItemKeeps(repo: Repo, id: string, event: Option<Event>, m: Change)
    requires PlanningInv(repo) && DecideDeleteItem(repo, id, event) == Ok(m)
    ensures PlanningInv(Post(repo, m))
  {
    var p := m.deletes[0];
    assert Elements([p]) == {p};
    assert Post(repo, m) == repo - {p};
    forall r | r in repo && r.ReviewPath? ensures r.parent != p.stem {
      assert RecordOk(r, repo[r]);
      assert r !in ReviewsOf(repo, id);
    }
    Remove(repo, p);
  }

  lemma {:induction false} CreateReviewKeeps(repo: Repo, op: Op, event: Option<Event>, m: Change)
    requires Accepted(repo, op, event, m) && op.CreateReview?
    ensures PlanningInv(Post(repo, m))
  {
    var r, d, p, e := m.writes[0].0, m.writes[0].1, m.writes[1].0, m.writes[1].1;
    MissIsMiss(repo, r.stem);
    PostTwo(repo, r, d, p, e, event);
    assert Post(repo, m) == (repo - {p})[p := e][r := d];
    Relocate(repo, p, p, e);
    AddReview((repo - {p})[p := e], r, d);
  }

  lemma {:induction false} SetReviewStateKeeps(repo: Repo, id: string, state: string, event: Option<Event>, m: Change)
    requires PlanningInv(repo) && DecideSetReviewState(repo, id, state, event) == Ok(m)
    ensures PlanningInv(Post(repo, m))
  {
    var p := RequireItem(repo, id).value;
    var parent := ParentOf(repo, p).value;
    var target, d := m.writes[0].0, m.writes[0].1;
    PostRelocate(repo, p, target, d, event);
    forall q | q in repo && q.ItemPath? && q.stem == p.parent ensures q == parent {
    }
    Relocate(repo, p, target, d);
  }

  lemma {:induction false} UpdateReviewKeeps(
    repo: Repo, id: string, updates: map<string, string>, event: Option<Event>, m: Change)
    requires PlanningInv(repo) && DecideUpdateReview(repo, id, updates, event) == Ok(m)
    ensures PlanningInv(Post(repo, m))
  {
    var p, d := m.writes[0].0, m.writes[0].1;
    PostWrite(repo, p, d, event);
    assert Post(repo, m) == (repo - {p})[p := d];
    forall q | q in repo && q.ItemPath? && q.stem == p.parent && repo[q].ItemDoc? && ReviewOpen(d.rstate)
        ensures !repo[q].istate.Finished? {
      assert CompletionOk(repo, q);
    }
    Relocate(repo, p, p, d);
  }

  lemma {:induction false} DeleteReviewKeeps(repo: Repo, id: string, event: Option<Event>, m: Change)
    requires PlanningInv(repo) && DecideDeleteReview(repo, id, event) == Ok(m)
    ensures PlanningInv(Post(repo, m))
  {
    var p := RequireItem(repo, id).value;
    var parent, d := m.writes[0].0, m.writes[0].1;
    PostMove(repo, parent, d, p, event);
    assert Post(repo, m) == (repo - {parent})[parent := d] - {p};
    assert CompletionOk(repo, parent);
    Relocate(repo, parent, parent, d);
    Remove((repo - {parent})[parent := d], p);
  }

  /** Every accepted operation keeps the invariant, except exactly the one whose guessed prefix is that of reviews. */
  lemma {:induction false} DecisionKeeps(repo: Repo, op: Op, event: Option<Event>, m: Change)
    requires Accepted(repo, op, event, m)
    ensures PlanningInv(Post(repo, m)) <==> !GuessesReviewPrefix(repo, op)
  {
    match op
    case CreateItem(_, _, _, _, _) => CreateItemKeeps(repo, op, event, m);
    case SetState(id, state) => SetStateKeeps(repo, id, state, event, m);
    case UpdateItem(_, _, _, _) => UpdateItemKeeps(repo, op, event, m);
    case DeleteItem(id) => DeleteItemKeeps(repo, id, event, m);
    case CreateReview(_, _, _, _, _) => CreateReviewKeeps(repo, op, event, m);
    case SetReviewState(id, state) => SetReviewStateKeeps(repo, id, state, event, m);
    case UpdateReview(id, updates) => UpdateReviewKeeps(repo, id, updates, event, m);
    case DeleteReview(id) => DeleteReviewKeeps(repo, id, event, m);
  }

  /** What an accepted operation asks of the journal never meets a guard. */
  lemma {:induction false} DecisionCommits(repo: Repo, op: Op, event: Option<Event>)
    ensures var decided := Decide(repo, op, event);
            decided.Ok? ==>
                DistinctPaths(decided.value.writes) && Compatible(repo, decided.value) && decided.value.event == event
  {
  }

  /** Such an operation exists: the first item of a plan called `rv-x` gets a review's id and is filed as an item. */
  lemma {:induction false} ReviewPrefixIsGuessed(event: Option<Event>)
    ensures var op := CreateItem(None, "RV01", "rv-x", "title", map[]);
            && PlanningInv(map[]) && Allocated(map[], op) && Decide(map[], op, event).Ok?
            && !PlanningInv(Post(map[], Decide(map[], op, event).value))
  {
    var op := CreateItem(None, "RV01", "rv-x", "title", map[]);
    var prefix := Upper("rv-x"[..2]);
    assert prefix == "RV";
    assert "RV01"[..2] == "RV" && "RV01"[2..] == "01";
    assert Matches(map[], "RV01") == {};
    assert FindItem(map[], "RV01") == Ok(None);
    DecisionKeeps(map[], op, event, Decide(map[], op, event).value);
  }

  // ---------------------------------------------------------------- runs

  ghost predicate Decided(repo: Repo, m: Change) {
    exists op, event :: Allocated(repo, op) && !GuessesReviewPrefix(repo, op) && Decide(repo, op, event) == Ok(m)
  }

  /** Every mutation in the log was decided by an operation on the files the earlier ones produce. */
  ghost predicate PlanningLog(repo: Repo, ms: seq<Change>) {
    ms == [] || (PlanningLog(repo, ms[..|ms| - 1]) && Decided(Replay(repo, ms[..|ms| - 1]), ms[|ms| - 1]))
  }

  lemma {:induction false} LogKeeps(repo: Repo, ms: seq<Change>)
    requires PlanningInv(repo) && PlanningLog(repo, ms)
    ensures PlanningInv(Replay(repo, ms))
    decreases |ms|
  {
    if ms != [] {
      var before, m := Replay(repo, ms[..|ms| - 1]), ms[|ms| - 1];
      LogKeeps(repo, ms[..|ms| - 1]);
      var op, event :| Allocated(before, op) && !GuessesReviewPrefix(before, op) && Decide(before, op, event) == Ok(m);
      DecisionKeeps(before, op, event, m);
    }
  }

  /**
    Safety over whole runs: whatever commits, crashes, recoveries and drains happened, the files that
    the next recovery leaves satisfy the planning invariant.
   */
  lemma {:induction false} EveryStateIsSound(w: World<RecordPath, Document>, acts: seq<Action<RecordPath, Document>>)
    requires Inv(w) && w.durable == [] && Legal(w, acts)
    requires PlanningInv(Logical(w)) && PlanningLog(Logical(w), Run(w, acts).durable)
    ensures PlanningInv(Logical(Run(w, acts)))
  {
    RunIsReplay(w, acts);
    LogKeeps(Logical(w), Run(w, acts).durable);
  }
}
