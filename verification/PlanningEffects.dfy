/**
  What each planning operation does, said without the functions that decide it: when an operation is
  permitted, what the repository is afterwards, and that everything else stays.  The lemmas tie
  both to `Decide`, in both directions.
 */
module PlanningEffects {
  import opened Wrappers
  import opened Journal
  import opened Planning
  import opened PlanningRuns
  import opened RecordIds
  import opened Sequences
  import Text

  // ---------------------------------------------------------------- the workflow, as a table

  const ITEM_STATES: set<(ItemState, string, Bucket)> := {
    (Pending, "pending", ActiveTree), (InProgress, "in_progress", ActiveTree), (Finished, "completed", CompletedTree),
    (Superseded, "superseded", CompletedTree), (Deprecated, "deprecated", CompletedTree)}

  const REVIEW_STATES: set<(ReviewState, string, Bucket)> := {
    (Created, "created", ActiveTree), (Considered, "considered", ActiveTree), (Closed, "closed", CompletedTree)}

  function Following(s: ItemState): set<ItemState> {
    match s
    case Pending => {InProgress, Finished, Superseded, Deprecated}
    case InProgress => {Pending, Finished, Superseded, Deprecated}
    case Finished => {Pending, InProgress, Superseded, Deprecated}
    case Superseded => {Pending, InProgress}
    case Deprecated => {Pending, InProgress}
  }

  lemma {:induction false} ItemWorkflow(s: ItemState, name: string, b: Bucket, next: ItemState)
    ensures (s, name, b) in ITEM_STATES <==> ItemStateNamed(name) == Some(s) && ItemBucket(s) == b
    ensures ItemTransition(s, next) <==> next == s || next in Following(s)
  {
    assert "superseded"[0] != "deprecated"[0];
  }

  lemma {:induction false} ReviewWorkflow(s: ReviewState, name: string, b: Bucket)
    ensures (s, name, b) in REVIEW_STATES <==> ReviewStateNamed(name) == Some(s) && ReviewBucket(s) == b
  {
  }

  // ---------------------------------------------------------------- sections and links

  ghost predicate Spaces(text: string) {
    forall i :: 0 <= i < |text| ==> Text.IsSpace(text[i])
  }

  /** `kept` is the text up to its last character that is no white space. */
  ghost predicate Trimmed(text: string, kept: string) {
    kept <= text && Spaces(text[|kept|..]) && (kept == "" || !Text.IsSpace(kept[|kept| - 1]))
  }

  lemma {:induction false} RStripTrims(text: string, kept: string)
    ensures Trimmed(text, kept) <==> kept == Text.RStrip(text)
    decreases |text|
  {
    if text != "" && Text.IsSpace(text[|text| - 1]) {
      var init := text[..|text| - 1];
      RStripTrims(init, kept);
      if kept <= init {
        assert text[|kept|..] == init[|kept|..] + [text[|text| - 1]];
      }
    } else {
      assert |kept| < |text| ==> text[|kept|..][|text| - |kept| - 1] == text[|text| - 1];
    }
  }

  /** What one section is after an update: its old text, the new text, or the new text below the old one. */
  ghost predicate SectionWritten(
    sections: map<string, string>, updates: map<string, string>, extended: set<string>, k: string,
    now: map<string, string>)
  {
    && (k in now <==> k in sections || k in updates)
    && (k in sections && k !in updates ==> now[k] == sections[k])
    && (k in updates && !(k in extended && k in sections) ==> now[k] == updates[k])
    && (k in updates && k in extended && k in sections ==>
          exists kept :: Trimmed(sections[k], kept) &&
            now[k] == if kept == "" then updates[k] else kept + "\n\n" + updates[k])
  }

  ghost predicate SectionsWritten(
    sections: map<string, string>, updates: map<string, string>, extended: set<string>, now: map<string, string>)
  {
    forall k :: SectionWritten(sections, updates, extended, k, now)
  }

  lemma {:induction false} UpdatedSection(
    sections: map<string, string>, updates: map<string, string>, extended: set<string>, k: string,
    now: map<string, string>)
    ensures SectionWritten(sections, updates, extended, k, now) <==>
            var computed := Updated(sections, updates, extended);
            (k in now <==> k in computed) && (k in now ==> now[k] == computed[k])
  {
    if k in sections {
      RStripTrims(sections[k], Text.RStrip(sections[k]));
      forall kept | Trimmed(sections[k], kept) ensures kept == Text.RStrip(sections[k]) {
        RStripTrims(sections[k], kept);
      }
    }
  }

  lemma {:induction false} UpdatedWrites(
    sections: map<string, string>, updates: map<string, string>, extended: set<string>, now: map<string, string>)
    ensures SectionsWritten(sections, updates, extended, now) <==> now == Updated(sections, updates, extended)
  {
    forall k ensures SectionWritten(sections, updates, extended, k, now) <==>
                     var computed := Updated(sections, updates, extended);
                     (k in now <==> k in computed) && (k in now ==> now[k] == computed[k]) {
      UpdatedSection(sections, updates, extended, k, now);
    }
  }

  /** The old links come first and in order, and `id` is linked, by a new entry only if it was not. */
  ghost predicate LinkAdded(links: seq<string>, id: string, now: seq<string>) {
    links <= now && multiset(now) == multiset(links)[id := if id in links then multiset(links)[id] else 1]
  }

  /** The old links in their order, but none of them to `id`. */
  ghost predicate LinkRemoved(links: seq<string>, id: string, now: seq<string>) {
    Subsequence(now, links) && multiset(now) == multiset(links)[id := 0]
  }

  lemma {:induction false} OneLink(links: seq<string>, id: string)
    requires multiset(links) == multiset{id}
    ensures links == [id]
  {
    assert |multiset(links)| == |links|;
    assert |multiset{id}| == 1;
    assert links[0] in multiset(links);
  }

  lemma {:induction false} LinkedAdds(links: seq<string>, id: string, now: seq<string>)
    ensures LinkAdded(links, id, now) <==> now == Linked(links, id)
  {
    if LinkAdded(links, id, now) {
      var rest := now[|links|..];
      assert now == links + rest;
      assert multiset(now) == multiset(links) + multiset(rest);
      if id in links {
        assert multiset(rest) == multiset{};
        assert rest == [];
      } else {
        assert multiset(now) == multiset(links) + multiset{id};
        assert multiset(rest) == multiset(now) - multiset(links);
        OneLink(rest, id);
      }
    }
  }

  lemma {:induction false} UnlinkedRemoves(links: seq<string>, id: string, now: seq<string>)
    ensures LinkRemoved(links, id, now) <==> now == Unlinked(links, id)
    decreases |links|
  {
    if links == [] {
      NothingToMatch(now);
    } else {
      var rest := links[1..];
      assert links == [links[0]] + rest;
      if links[0] == id {
        UnlinkedRemoves(rest, id, now);
        RemovedSkips(links, id, now);
      } else {
        UnlinkedRemoves(rest, id, if now == [] then [] else now[1..]);
        RemovedMatches(links, id, now);
      }
    }
  }

  /** The deleted id at the front is skipped. */
  lemma {:induction false} RemovedSkips(links: seq<string>, id: string, now: seq<string>)
    requires links != [] && links[0] == id
    ensures LinkRemoved(links, id, now) <==> LinkRemoved(links[1..], id, now)
  {
    assert links == [links[0]] + links[1..];
    assert multiset(links)[id := 0] == multiset(links[1..])[id := 0];
    if now == [] {
      NothingLeft(links);
      NothingLeft(links[1..]);
    } else if now[0] == id {
      assert id in multiset(now);
    } else {
      SkipHead(now, links);
    }
  }

  /** Any other id at the front is kept at the front. */
  lemma {:induction false} RemovedMatches(links: seq<string>, id: string, now: seq<string>)
    requires links != [] && links[0] != id
    ensures LinkRemoved(links, id, now) <==> now != [] && now[0] == links[0] && LinkRemoved(links[1..], id, now[1..])
  {
    var rest := links[1..];
    assert links == [links[0]] + rest;
    assert multiset(links)[id := 0] == multiset{links[0]} + multiset(rest)[id := 0];
    if now == [] {
      assert links[0] in multiset(links)[id := 0];
    } else {
      assert now == [now[0]] + now[1..];
      if now[0] == links[0] {
        MatchHead(now, links);
        assert multiset(now) == multiset{links[0]} + multiset(now[1..]);
        assert multiset(now[1..]) == multiset(now) - multiset{links[0]};
      } else if Subsequence(now, links) {
        SkipHead(now, links);
        SubsequenceWithin(now, rest);
        assert multiset(now)[links[0]] <= multiset(rest)[links[0]];
      }
    }
  }

  // ---------------------------------------------------------------- lookup in a sound repository

  ghost predicate FreeId(repo: Repo, id: string) {
    IsRecordId(id) && forall p :: p in repo ==> p.stem != id
  }

  lemma {:induction false} NoneFound(repo: Repo, id: string)
    requires PlanningInv(repo)
    ensures FindItem(repo, id) == Ok(None) <==> FreeId(repo, id)
  {
    if FindItem(repo, id) == Ok(None) {
      MissIsMiss(repo, id);
    }
    if FreeId(repo, id) {
      assert Matches(repo, id) == {};
      forall p | p in repo ensures RecordOk(p, repo[p]) {
      }
    }
  }

  lemma {:induction false} RecordFound(repo: Repo, p: RecordPath)
    requires PlanningInv(repo) && p in repo
    ensures RequireItem(repo, p.stem) == Ok(p)
  {
    assert RecordOk(p, repo[p]);
    forall q | q in Matches(repo, p.stem) ensures q == p {
    }
    assert Matches(repo, p.stem) == {p};
    forall q | q in repo ensures RecordOk(q, repo[q]) {
    }
  }

  /** The review's plan and parent name the one item that links it. */
  ghost predicate LinkedByParent(repo: Repo, r: RecordPath, parent: RecordPath) {
    && r in repo && r.ReviewPath? && parent in repo && parent.ItemPath?
    && parent.plan == r.plan && parent.stem == r.parent
    && forall p :: p in repo && repo[p].ItemDoc? ==> (r.stem in repo[p].links <==> p == parent)
  }

  lemma {:induction false} ParentFound(repo: Repo, r: RecordPath, parent: RecordPath)
    requires PlanningInv(repo) && r in repo && r.ReviewPath?
    ensures ParentOf(repo, r) == Some(parent) <==> LinkedByParent(repo, r, parent)
  {
    forall p | p in repo ensures RecordOk(p, repo[p]) {
    }
    assert parent in repo && parent.ItemPath? ==>
        (LinkedByParent(repo, r, parent) <==> CanonicalContext(repo, r, parent));
  }

  // ---------------------------------------------------------------- when an operation is permitted

  function Chosen(given: Option<string>, auto: string): string {
    if given.Some? then given.value else auto
  }

  ghost predicate Filled(sections: map<string, string>, name: string) {
    name in sections && !Spaces(sections[name])
  }

  /** A completed item shows its validation and its acceptance criteria. */
  ghost predicate Evident(sections: map<string, string>) {
    Filled(sections, "validation") && Filled(sections, "acceptance_criteria")
  }

  lemma {:induction false} EvidenceShown(sections: map<string, string>)
    ensures HasEvidence(sections) <==> Evident(sections)
  {
    Text.BlankIsSpaces(SectionAt(sections, "validation"));
    Text.BlankIsSpaces(SectionAt(sections, "acceptance_criteria"));
  }

  ghost predicate Open(s: ItemState) {
    s == Pending || s == InProgress
  }

  /** The item `id` is at `p`. */
  ghost predicate ItemAt(repo: Repo, p: RecordPath, id: string) {
    p in repo && p.ItemPath? && p.stem == id && repo[p].ItemDoc?
  }

  /** The review `id` is at `r`, under its parent's only link. */
  ghost predicate ReviewAt(repo: Repo, r: RecordPath, id: string, parent: RecordPath) {
    && LinkedByParent(repo, r, parent) && r.stem == id && repo[r].ReviewDoc? && repo[parent].ItemDoc?
  }

  ghost predicate MayMove(repo: Repo, p: RecordPath, id: string, name: string, s: ItemState, b: Bucket) {
    && ItemAt(repo, p, id) && (s, name, b) in ITEM_STATES
    && (s == repo[p].istate || s in Following(repo[p].istate))
    && (s == Finished ==> Evident(repo[p].sections) && ReviewsClosed(repo, id))
  }

  ghost predicate MayUpdate(updates: map<string, string>) {
    updates != map[] && forall k :: k in updates ==>
      k !in {"id", "plan", "state", "created-at", "created_at", "review-of", "review_of"}
  }

  /** `append` names each section once, and only sections with new text. */
  ghost predicate MayAppend(append: Option<seq<string>>, updates: map<string, string>) {
    append.Some? ==>
      && (forall i, j :: 0 <= i < j < |append.value| ==> append.value[i] != append.value[j])
      && (forall k :: k in append.value ==> k in updates)
  }

  /** The sections to extend: those in `append`, or the notes when the caller gives no list. */
  ghost function Extended(append: Option<seq<string>>): set<string> {
    match append
    case None => {"notes"}
    case Some(names) => set k | k in names
  }

  /** An update touches the sections and, if the caller gives them, the links. */
  ghost predicate ItemRewritten(op: Op, d: Document, now: Document)
    requires op.UpdateItem?
  {
    && d.ItemDoc? && now.ItemDoc? && now == d.(sections := now.sections, links := now.links)
    && SectionsWritten(d.sections, op.updates, Extended(op.append), now.sections)
    && (match op.links case None => now.links == d.links case Some(links) => now.links == links)
  }

  ghost predicate ItemUpdates(repo: Repo, op: Op, p: RecordPath, now: Document)
    requires op.UpdateItem?
  {
    && ItemAt(repo, p, op.id) && ItemRewritten(op, repo[p], now)
    && (now.istate == Finished ==> Evident(now.sections))
  }

  ghost predicate MayMoveReview(
    repo: Repo, r: RecordPath, id: string, parent: RecordPath, name: string, s: ReviewState, b: Bucket)
  {
    && ReviewAt(repo, r, id, parent) && (s, name, b) in REVIEW_STATES
    && (s != Closed ==> Open(repo[parent].istate))
  }

  /** When the repository accepts an operation. */
  ghost predicate Permitted(repo: Repo, op: Op) {
    match op
    case CreateItem(given, auto, plan, title, _) =>
      && IsSlug(plan) && title != "" && (given.Some? ==> IsItemId(given.value)) && FreeId(repo, Chosen(given, auto))
    case SetState(id, name) => exists p, s, b :: MayMove(repo, p, id, name, s, b)
    case UpdateItem(id, updates, append, links) =>
      MayUpdate(updates) && MayAppend(append, updates) && exists p, now :: ItemUpdates(repo, op, p, now)
    case DeleteItem(id) =>
      (exists p :: ItemAt(repo, p, id)) && forall r :: r in repo && r.ReviewPath? ==> r.parent != id
    case CreateReview(given, auto, parent, title, _) =>
      && title != "" && (given.Some? ==> IsReviewId(given.value)) && FreeId(repo, Chosen(given, auto))
      && exists p :: ItemAt(repo, p, parent) && Open(repo[p].istate)
    case SetReviewState(id, name) => exists r, parent, s, b :: MayMoveReview(repo, r, id, parent, name, s, b)
    case UpdateReview(id, updates) => MayUpdate(updates) && exists r, parent :: ReviewAt(repo, r, id, parent)
    case DeleteReview(id) => exists r, parent :: ReviewAt(repo, r, id, parent)
  }

  // ---------------------------------------------------------------- what an operation does

  /** Nothing is different except, at most, at these paths. */
  ghost predicate SameBut(repo: Repo, after: Repo, paths: set<RecordPath>) {
    forall p :: p !in paths ==> (p in after <==> p in repo) && (p in repo ==> after[p] == repo[p])
  }

  ghost predicate ItemCreated(repo: Repo, p: RecordPath, id: string, plan: string, sections: map<string, string>,
                              after: Repo)
  {
    && p == ItemPath(ActiveTree, plan, id) && p !in repo && p in after && SameBut(repo, after, {p})
    && after[p] == ItemDoc(id, plan, Pending, sections, [])
  }

  /** The record is where the new state belongs, and only its state changed. */
  ghost predicate ItemMoved(repo: Repo, p: RecordPath, id: string, name: string, s: ItemState, b: Bucket, after: Repo) {
    && ItemAt(repo, p, id) && (s, name, b) in ITEM_STATES
    && var target := ItemPath(b, p.plan, id);
      && SameBut(repo, after, {p, target}) && target in after && (p != target ==> p !in after)
      && after[target] == repo[p].(istate := s)
  }

  ghost predicate ItemUpdated(repo: Repo, op: Op, p: RecordPath, after: Repo)
    requires op.UpdateItem?
  {
    ItemAt(repo, p, op.id) && p in after && SameBut(repo, after, {p}) && ItemRewritten(op, repo[p], after[p])
  }

  ghost predicate ItemDeleted(repo: Repo, p: RecordPath, id: string, after: Repo) {
    ItemAt(repo, p, id) && p !in after && SameBut(repo, after, {p})
  }

  /** The new review is filed under its parent, whose links gain it and which is otherwise unchanged. */
  ghost predicate ReviewCreated(
    repo: Repo, p: RecordPath, id: string, parent: string, sections: map<string, string>, after: Repo)
  {
    && ItemAt(repo, p, parent) && p in after && after[p].ItemDoc?
    && var r := ReviewPath(ActiveTree, p.plan, parent, id);
      && r !in repo && r in after && SameBut(repo, after, {p, r})
      && after[r] == ReviewDoc(id, p.plan, parent, Created, sections)
      && after[p] == repo[p].(links := after[p].links) && LinkAdded(repo[p].links, id, after[p].links)
  }

  ghost predicate ReviewMoved(
    repo: Repo, r: RecordPath, id: string, name: string, s: ReviewState, b: Bucket, after: Repo)
  {
    && r in repo && r.ReviewPath? && r.stem == id && repo[r].ReviewDoc? && (s, name, b) in REVIEW_STATES
    && var target := ReviewPath(b, r.plan, r.parent, id);
      && SameBut(repo, after, {r, target}) && target in after && (r != target ==> r !in after)
      && after[target] == repo[r].(rstate := s)
  }

  ghost predicate ReviewUpdated(repo: Repo, r: RecordPath, id: string, updates: map<string, string>, after: Repo) {
    && r in repo && r.ReviewPath? && r.stem == id && repo[r].ReviewDoc?
    && r in after && after[r].ReviewDoc? && SameBut(repo, after, {r})
    && after[r] == repo[r].(sections := after[r].sections)
    && SectionsWritten(repo[r].sections, updates, {}, after[r].sections)
  }

  /** The review is gone, and its parent's links are the old ones in order without it. */
  ghost predicate ReviewDeleted(repo: Repo, r: RecordPath, id: string, p: RecordPath, after: Repo) {
    && ReviewAt(repo, r, id, p) && r !in after && p in after && after[p].ItemDoc? && SameBut(repo, after, {p, r})
    && after[p] == repo[p].(links := after[p].links) && LinkRemoved(repo[p].links, id, after[p].links)
  }

  ghost predicate Effect(repo: Repo, op: Op, after: Repo) {
    match op
    case CreateItem(given, auto, plan, _, sections) =>
      exists p :: ItemCreated(repo, p, Chosen(given, auto), plan, sections, after)
    case SetState(id, name) => exists p, s, b :: ItemMoved(repo, p, id, name, s, b, after)
    case UpdateItem(_, _, _, _) => exists p :: ItemUpdated(repo, op, p, after)
    case DeleteItem(id) => exists p :: ItemDeleted(repo, p, id, after)
    case CreateReview(given, auto, parent, _, sections) =>
      exists p :: ReviewCreated(repo, p, Chosen(given, auto), parent, sections, after)
    case SetReviewState(id, name) => exists r, s, b :: ReviewMoved(repo, r, id, name, s, b, after)
    case UpdateReview(id, updates) => exists r :: ReviewUpdated(repo, r, id, updates, after)
    case DeleteReview(id) => exists r, p :: ReviewDeleted(repo, r, id, p, after)
  }

  // ---------------------------------------------------------------- the decisions accept what is permitted

  /** In a sound repository a lookup finds the record of that id, if there is one. */
  lemma {:induction false} Found(repo: Repo, id: string)
    requires PlanningInv(repo)
    ensures RequireItem(repo, id).Ok? <==> exists p :: p in repo && p.stem == id
    ensures forall p :: p in repo && p.stem == id ==> RequireItem(repo, id) == Ok(p)
  {
    forall p | p in repo && p.stem == id ensures RequireItem(repo, id) == Ok(p) {
      RecordFound(repo, p);
    }
  }

  lemma {:induction false} CreateItemPermitted(repo: Repo, op: Op, event: Option<Event>)
    requires PlanningInv(repo) && op.CreateItem?
    ensures Decide(repo, op, event).Ok? <==> Permitted(repo, op)
  {
    NoneFound(repo, Chosen(op.given, op.auto));
  }

  lemma {:induction false} MoveChecks(repo: Repo, p: RecordPath, id: string, s: ItemState)
    requires PlanningInv(repo) && p in repo && p.stem == id
    ensures HasOpenReview(repo, id) <==> !ReviewsClosed(repo, id)
    ensures p.ItemPath? <==> repo[p].ItemDoc?
  {
    assert RecordOk(p, repo[p]);
    if !HasOpenReview(repo, id) {
      OpenReviewsRefused(repo, id);
    }
  }

  lemma {:induction false} SetStatePermitted(repo: Repo, id: string, name: string, event: Option<Event>)
    requires PlanningInv(repo)
    ensures DecideSetState(repo, id, name, event).Ok? <==> exists p, s, b :: MayMove(repo, p, id, name, s, b)
  {
    Found(repo, id);
    if p :| p in repo && p.stem == id {
      if ItemStateNamed(name).Some? {
        var s := ItemStateNamed(name).value;
        MoveDecided(repo, p, id, name, s, event);
        assert DecideSetState(repo, id, name, event).Ok? ==> MayMove(repo, p, id, name, s, ItemBucket(s));
      }
      forall q, s, b | MayMove(repo, q, id, name, s, b)
        ensures q == p && ItemStateNamed(name) == Some(s) && b == ItemBucket(s) {
        ItemWorkflow(s, name, b, s);
      }
    }
  }

  lemma {:induction false} MoveDecided(
    repo: Repo, p: RecordPath, id: string, name: string, s: ItemState, event: Option<Event>)
    requires PlanningInv(repo) && p in repo && p.stem == id && RequireItem(repo, id) == Ok(p)
    requires ItemStateNamed(name) == Some(s)
    ensures DecideSetState(repo, id, name, event).Ok? <==> MayMove(repo, p, id, name, s, ItemBucket(s))
  {
    MoveChecks(repo, p, id, s);
    if repo[p].ItemDoc? {
      EvidenceShown(repo[p].sections);
      ItemWorkflow(s, name, ItemBucket(s), s);
      ItemWorkflow(repo[p].istate, name, ActiveTree, s);
    }
  }

  lemma {:induction false} UpdateItemPermitted(repo: Repo, op: Op, event: Option<Event>)
    requires PlanningInv(repo) && op.UpdateItem?
    ensures DecideUpdateItem(repo, op, event).Ok? <==> Permitted(repo, op)
  {
    Found(repo, op.id);
    if p :| p in repo && p.stem == op.id {
      assert RecordOk(p, repo[p]);
      if repo[p].ItemDoc? {
        UpdateDecided(repo, p, op, Rewritten(op, repo[p]), event);
        forall q, now | ItemUpdates(repo, op, q, now) ensures q == p && now == Rewritten(op, repo[p]) {
          RewrittenIs(op, repo[p], now);
        }
      }
    }
  }

  lemma {:induction false} UpdateDecided(repo: Repo, p: RecordPath, op: Op, now: Document, event: Option<Event>)
    requires PlanningInv(repo) && op.UpdateItem? && ItemAt(repo, p, op.id) && RequireItem(repo, op.id) == Ok(p)
    requires now == Rewritten(op, repo[p])
    ensures DecideUpdateItem(repo, op, event).Ok? <==>
            MayUpdate(op.updates) && MayAppend(op.append, op.updates) && ItemUpdates(repo, op, p, now)
  {
    UpdateChecks(op);
    RewrittenIs(op, repo[p], now);
    EvidenceShown(now.sections);
  }

  lemma {:induction false} UpdateChecks(op: Op)
    requires op.UpdateItem?
    ensures MayUpdate(op.updates) <==> op.updates.Keys * PROTECTED == {} && op.updates != map[]
    ensures MayAppend(op.append, op.updates) <==>
            !(op.append.Some? && (Repeats(op.append.value) || exists k :: k in op.append.value && k !in op.updates))
  {
    MayUpdateChecks(op.updates);
  }

  lemma {:induction false} MayUpdateChecks(updates: map<string, string>)
    ensures MayUpdate(updates) <==> updates.Keys * PROTECTED == {} && updates != map[]
  {
    forall k ensures k in updates.Keys * PROTECTED <==> k in updates && k in PROTECTED {
    }
  }

  /** The document that an update decides to write. */
  ghost function Rewritten(op: Op, d: Document): Document
    requires op.UpdateItem? && d.ItemDoc?
  {
    d.(sections := Updated(d.sections, op.updates, if op.append.Some? then Elements(op.append.value) else {"notes"}),
       links := if op.links.Some? then op.links.value else d.links)
  }

  lemma {:induction false} RewrittenIs(op: Op, d: Document, now: Document)
    requires op.UpdateItem? && d.ItemDoc?
    ensures ItemRewritten(op, d, now) <==> now == Rewritten(op, d)
  {
    assert op.append.Some? ==> Elements(op.append.value) == Extended(op.append);
    if now.ItemDoc? {
      UpdatedWrites(d.sections, op.updates, Extended(op.append), now.sections);
    }
  }

  lemma {:induction false} DeleteItemPermitted(repo: Repo, id: string, event: Option<Event>)
    requires PlanningInv(repo)
    ensures DecideDeleteItem(repo, id, event).Ok? <==>
            (exists p :: ItemAt(repo, p, id)) && forall r :: r in repo && r.ReviewPath? ==> r.parent != id
  {
    Found(repo, id);
    forall r | r in repo && r.ReviewPath? ensures r in ReviewsOf(repo, id) <==> r.parent == id {
      assert RecordOk(r, repo[r]);
    }
    if p :| p in repo && p.stem == id {
      assert RecordOk(p, repo[p]);
      assert repo[p].ItemDoc? ==> ItemAt(repo, p, id);
    }
  }

  lemma {:induction false} CreateReviewPermitted(repo: Repo, op: Op, event: Option<Event>)
    requires PlanningInv(repo) && op.CreateReview?
    ensures DecideCreateReview(repo, op, event).Ok? <==> Permitted(repo, op)
  {
    Found(repo, op.parent);
    NoneFound(repo, op.parent);
    if p :| p in repo && p.stem == op.parent {
      ReviewDecided(repo, p, op, event);
      assert ItemAt(repo, p, op.parent) <==> exists q :: ItemAt(repo, q, op.parent);
    }
  }

  lemma {:induction false} ReviewDecided(repo: Repo, p: RecordPath, op: Op, event: Option<Event>)
    requires PlanningInv(repo) && op.CreateReview? && p in repo && p.stem == op.parent
    requires RequireItem(repo, op.parent) == Ok(p)
    ensures DecideCreateReview(repo, op, event).Ok? <==>
            && op.title != "" && (op.given.Some? ==> IsReviewId(op.given.value))
            && FreeId(repo, Chosen(op.given, op.auto)) && ItemAt(repo, p, op.parent) && Open(repo[p].istate)
  {
    NoneFound(repo, Chosen(op.given, op.auto));
    assert RecordOk(p, repo[p]);
  }

  /** A review operation gets as far as the review's context iff the review and its parent's link are there. */
  lemma {:induction false} ReviewFound(repo: Repo, r: RecordPath, id: string)
    requires PlanningInv(repo) && r in repo && r.stem == id
    ensures RequireItem(repo, id) == Ok(r)
    ensures r.ReviewPath? <==> repo[r].ReviewDoc?
    ensures forall parent :: ReviewAt(repo, r, id, parent) <==> r.ReviewPath? && ParentOf(repo, r) == Some(parent)
    ensures r.ReviewPath? && ParentOf(repo, r).Some? ==>
              ParentOf(repo, r).value in repo && repo[ParentOf(repo, r).value].ItemDoc?
  {
    RecordFound(repo, r);
    assert RecordOk(r, repo[r]);
    if r.ReviewPath? {
      forall parent ensures ReviewAt(repo, r, id, parent) <==> ParentOf(repo, r) == Some(parent) {
        ParentFound(repo, r, parent);
        assert parent in repo ==> RecordOk(parent, repo[parent]);
      }
      if ParentOf(repo, r).Some? {
        assert ReviewAt(repo, r, id, ParentOf(repo, r).value);
      }
    }
  }

  lemma {:induction false} SetReviewStatePermitted(repo: Repo, id: string, name: string, event: Option<Event>)
    requires PlanningInv(repo)
    ensures DecideSetReviewState(repo, id, name, event).Ok? <==>
            exists r, parent, s, b :: MayMoveReview(repo, r, id, parent, name, s, b)
  {
    Found(repo, id);
    if r :| r in repo && r.stem == id {
      ReviewFound(repo, r, id);
      forall s: ReviewState, b: Bucket ensures (s, name, b) in REVIEW_STATES <==>
                       ReviewStateNamed(name) == Some(s) && ReviewBucket(s) == b {
        ReviewWorkflow(s, name, b);
      }
      if r.ReviewPath? && ParentOf(repo, r).Some? && ReviewStateNamed(name).Some? {
        var parent, s := ParentOf(repo, r).value, ReviewStateNamed(name).value;
        assert DecideSetReviewState(repo, id, name, event).Ok? <==>
            MayMoveReview(repo, r, id, parent, name, s, ReviewBucket(s));
      }
    }
  }

  lemma {:induction false} UpdateReviewPermitted(
    repo: Repo, id: string, updates: map<string, string>, event: Option<Event>)
    requires PlanningInv(repo)
    ensures DecideUpdateReview(repo, id, updates, event).Ok? <==>
            MayUpdate(updates) && exists r, parent :: ReviewAt(repo, r, id, parent)
  {
    Found(repo, id);
    MayUpdateChecks(updates);
    if r :| r in repo && r.stem == id {
      ReviewFound(repo, r, id);
    }
  }

  lemma {:induction false} DeleteReviewPermitted(repo: Repo, id: string, event: Option<Event>)
    requires PlanningInv(repo)
    ensures DecideDeleteReview(repo, id, event).Ok? <==> exists r, parent :: ReviewAt(repo, r, id, parent)
  {
    Found(repo, id);
    if r :| r in repo && r.stem == id {
      ReviewFound(repo, r, id);
    }
  }

  /** In a sound repository an operation is accepted iff it is permitted. */
  lemma {:induction false} AcceptsPermitted(repo: Repo, op: Op, event: Option<Event>)
    requires PlanningInv(repo)
    ensures Decide(repo, op, event).Ok? <==> Permitted(repo, op)
  {
    match op
    case CreateItem(_, _, _, _, _) => CreateItemPermitted(repo, op, event);
    case SetState(id, state) => SetStatePermitted(repo, id, state, event);
    case UpdateItem(_, _, _, _) => UpdateItemPermitted(repo, op, event);
    case DeleteItem(id) => DeleteItemPermitted(repo, id, event);
    case CreateReview(_, _, _, _, _) => CreateReviewPermitted(repo, op, event);
    case SetReviewState(id, state) => SetReviewStatePermitted(repo, id, state, event);
    case UpdateReview(id, updates) => UpdateReviewPermitted(repo, id, updates, event);
    case DeleteReview(id) => DeleteReviewPermitted(repo, id, event);
  }

  // ---------------------------------------------------------------- the decisions do what is stated

  lemma {:induction false} CreateItemEffect(repo: Repo, op: Op, event: Option<Event>, m: Change)
    requires PlanningInv(repo) && op.CreateItem? && Decide(repo, op, event) == Ok(m)
    ensures Effect(repo, op, Post(repo, m))
  {
    var id := Chosen(op.given, op.auto);
    var p, d := ItemPath(ActiveTree, op.plan, id), ItemDoc(id, op.plan, Pending, op.sections, []);
    NoneFound(repo, id);
    PostWrite(repo, p, d, event);
    assert ItemCreated(repo, p, id, op.plan, op.sections, Post(repo, m));
  }

  lemma {:induction false} SetStateEffect(repo: Repo, id: string, name: string, event: Option<Event>, m: Change)
    requires PlanningInv(repo) && DecideSetState(repo, id, name, event) == Ok(m)
    ensures exists p, s, b :: ItemMoved(repo, p, id, name, s, b, Post(repo, m))
  {
    var p, s := RequireItem(repo, id).value, ItemStateNamed(name).value;
    var d := repo[p].(istate := s);
    assert RecordOk(p, repo[p]);
    ItemWorkflow(s, name, ItemBucket(s), s);
    PostRelocate(repo, p, ItemPath(ItemBucket(s), p.plan, p.stem), d, event);
    assert ItemMoved(repo, p, id, name, s, ItemBucket(s), Post(repo, m));
  }

  lemma {:induction false} UpdateItemEffect(repo: Repo, op: Op, event: Option<Event>, m: Change)
    requires PlanningInv(repo) && op.UpdateItem? && DecideUpdateItem(repo, op, event) == Ok(m)
    ensures Effect(repo, op, Post(repo, m))
  {
    var p := RequireItem(repo, op.id).value;
    assert RecordOk(p, repo[p]);
    RewrittenIs(op, repo[p], Rewritten(op, repo[p]));
    PostWrite(repo, p, Rewritten(op, repo[p]), event);
    assert ItemUpdated(repo, op, p, Post(repo, m));
  }

  lemma {:induction false} DeleteItemEffect(repo: Repo, id: string, event: Option<Event>, m: Change)
    requires PlanningInv(repo) && DecideDeleteItem(repo, id, event) == Ok(m)
    ensures exists p :: ItemDeleted(repo, p, id, Post(repo, m))
  {
    var p := RequireItem(repo, id).value;
    assert RecordOk(p, repo[p]);
    assert Elements([p]) == {p};
    assert Post(repo, m) == repo - {p};
    assert ItemDeleted(repo, p, id, Post(repo, m));
  }

  lemma {:induction false} CreateReviewEffect(repo: Repo, op: Op, event: Option<Event>, m: Change)
    requires PlanningInv(repo) && op.CreateReview? && DecideCreateReview(repo, op, event) == Ok(m)
    ensures Effect(repo, op, Post(repo, m))
  {
    var id, p := Chosen(op.given, op.auto), m.writes[1].0;
    Found(repo, op.parent);
    NoneFound(repo, id);
    assert RecordOk(p, repo[p]);
    var r, d := ReviewPath(ActiveTree, p.plan, p.stem, id), ReviewDoc(id, p.plan, p.stem, Created, op.sections);
    var e := repo[p].(links := Linked(repo[p].links, id));
    PostTwo(repo, r, d, p, e, event);
    LinkedAdds(repo[p].links, id, e.links);
    assert ReviewCreated(repo, p, id, op.parent, op.sections, Post(repo, m));
  }

  lemma {:induction false} SetReviewStateEffect(repo: Repo, id: string, name: string, event: Option<Event>, m: Change)
    requires PlanningInv(repo) && DecideSetReviewState(repo, id, name, event) == Ok(m)
    ensures exists r, s, b :: ReviewMoved(repo, r, id, name, s, b, Post(repo, m))
  {
    var r, s := RequireItem(repo, id).value, ReviewStateNamed(name).value;
    ReviewWorkflow(s, name, ReviewBucket(s));
    PostRelocate(repo, r, ReviewPath(ReviewBucket(s), r.plan, r.parent, r.stem), repo[r].(rstate := s), event);
    assert ReviewMoved(repo, r, id, name, s, ReviewBucket(s), Post(repo, m));
  }

  lemma {:induction false} UpdateReviewEffect(
    repo: Repo, id: string, updates: map<string, string>, event: Option<Event>, m: Change)
    requires PlanningInv(repo) && DecideUpdateReview(repo, id, updates, event) == Ok(m)
    ensures exists r :: ReviewUpdated(repo, r, id, updates, Post(repo, m))
  {
    var r := RequireItem(repo, id).value;
    var now := Updated(repo[r].sections, updates, {});
    UpdatedWrites(repo[r].sections, updates, {}, now);
    PostWrite(repo, r, WithSections(repo[r], now), event);
    assert ReviewUpdated(repo, r, id, updates, Post(repo, m));
  }

  lemma {:induction false} DeleteReviewEffect(repo: Repo, id: string, event: Option<Event>, m: Change)
    requires PlanningInv(repo) && DecideDeleteReview(repo, id, event) == Ok(m)
    ensures exists r, p :: ReviewDeleted(repo, r, id, p, Post(repo, m))
  {
    var r := RequireItem(repo, id).value;
    var p := ParentOf(repo, r).value;
    ReviewFound(repo, r, id);
    var d := repo[p].(links := Unlinked(repo[p].links, id));
    UnlinkedRemoves(repo[p].links, id, d.links);
    PostMove(repo, p, d, r, event);
    assert ReviewDeleted(repo, r, id, p, Post(repo, m));
  }

  /** What is decided has the stated effect on the repository. */
  lemma {:induction false} DecisionHasEffect(repo: Repo, op: Op, event: Option<Event>, m: Change)
    requires PlanningInv(repo) && Decide(repo, op, event) == Ok(m)
    ensures Effect(repo, op, Post(repo, m))
  {
    match op
    case CreateItem(_, _, _, _, _) => CreateItemEffect(repo, op, event, m);
    case SetState(id, state) => SetStateEffect(repo, id, state, event, m);
    case UpdateItem(_, _, _, _) => UpdateItemEffect(repo, op, event, m);
    case DeleteItem(id) => DeleteItemEffect(repo, id, event, m);
    case CreateReview(_, _, _, _, _) => CreateReviewEffect(repo, op, event, m);
    case SetReviewState(id, state) => SetReviewStateEffect(repo, id, state, event, m);
    case UpdateReview(id, updates) => UpdateReviewEffect(repo, id, updates, event, m);
    case DeleteReview(id) => DeleteReviewEffect(repo, id, event, m);
  }

  // ---------------------------------------------------------------- the statement leaves nothing open

  lemma {:induction false} SameButSame(repo: Repo, a: Repo, b: Repo, paths: set<RecordPath>)
    requires SameBut(repo, a, paths) && SameBut(repo, b, paths)
    requires forall p :: p in paths ==> (p in a <==> p in b) && (p in a ==> a[p] == b[p])
    ensures a == b
  {
    forall p ensures (p in a <==> p in b) && (p in a ==> a[p] == b[p]) {
      assert p !in paths ==> (p in a <==> p in repo) && (p in b <==> p in repo);
    }
  }

  lemma {:induction false} ItemMovedSame(repo: Repo, id: string, name: string, a: Repo, b: Repo)
    requires PlanningInv(repo)
    requires exists p, s, k :: ItemMoved(repo, p, id, name, s, k, a)
    requires exists q, t, l :: ItemMoved(repo, q, id, name, t, l, b)
    ensures a == b
  {
    var p, s, k :| ItemMoved(repo, p, id, name, s, k, a);
    var q, t, l :| ItemMoved(repo, q, id, name, t, l, b);
    assert p == q;
    ItemWorkflow(s, name, k, s);
    ItemWorkflow(t, name, l, t);
    SameButSame(repo, a, b, {p, ItemPath(k, p.plan, id)});
  }

  lemma {:induction false} ReviewMovedSame(repo: Repo, id: string, name: string, a: Repo, b: Repo)
    requires PlanningInv(repo)
    requires exists p, s, k :: ReviewMoved(repo, p, id, name, s, k, a)
    requires exists q, t, l :: ReviewMoved(repo, q, id, name, t, l, b)
    ensures a == b
  {
    var p, s, k :| ReviewMoved(repo, p, id, name, s, k, a);
    var q, t, l :| ReviewMoved(repo, q, id, name, t, l, b);
    assert p == q;
    ReviewWorkflow(s, name, k);
    ReviewWorkflow(t, name, l);
    SameButSame(repo, a, b, {p, ReviewPath(k, p.plan, p.parent, id)});
  }

  lemma {:induction false} UpdatedSame(repo: Repo, op: Op, a: Repo, b: Repo)
    requires PlanningInv(repo) && (op.UpdateItem? || op.UpdateReview?) && Effect(repo, op, a) && Effect(repo, op, b)
    ensures a == b
  {
    if op.UpdateItem? {
      var p :| ItemUpdated(repo, op, p, a);
      var q :| ItemUpdated(repo, op, q, b);
      RewrittenIs(op, repo[p], a[p]);
      RewrittenIs(op, repo[p], b[p]);
      SameButSame(repo, a, b, {p});
    } else {
      var p :| ReviewUpdated(repo, p, op.id, op.updates, a);
      var q :| ReviewUpdated(repo, q, op.id, op.updates, b);
      UpdatedWrites(repo[p].sections, op.updates, {}, a[p].sections);
      UpdatedWrites(repo[p].sections, op.updates, {}, b[p].sections);
      SameButSame(repo, a, b, {p});
    }
  }

  lemma {:induction false} ReviewCreatedSame(
    repo: Repo, p: RecordPath, id: string, parent: string, sections: map<string, string>, a: Repo, b: Repo)
    requires ReviewCreated(repo, p, id, parent, sections, a) && ReviewCreated(repo, p, id, parent, sections, b)
    ensures a == b
  {
    LinkedAdds(repo[p].links, id, a[p].links);
    LinkedAdds(repo[p].links, id, b[p].links);
    SameButSame(repo, a, b, {p, ReviewPath(ActiveTree, p.plan, parent, id)});
  }

  lemma {:induction false} ReviewDeletedSame(
    repo: Repo, r: RecordPath, id: string, p: RecordPath, a: Repo, b: Repo)
    requires ReviewDeleted(repo, r, id, p, a) && ReviewDeleted(repo, r, id, p, b)
    ensures a == b
  {
    UnlinkedRemoves(repo[p].links, id, a[p].links);
    UnlinkedRemoves(repo[p].links, id, b[p].links);
    SameButSame(repo, a, b, {p, r});
  }

  lemma {:induction false} ReviewsSame(repo: Repo, op: Op, a: Repo, b: Repo)
    requires PlanningInv(repo) && (op.CreateReview? || op.DeleteReview?) && Effect(repo, op, a) && Effect(repo, op, b)
    ensures a == b
  {
    if op.CreateReview? {
      var id := Chosen(op.given, op.auto);
      var p :| ReviewCreated(repo, p, id, op.parent, op.sections, a);
      var q :| ReviewCreated(repo, q, id, op.parent, op.sections, b);
      assert p == q;
      ReviewCreatedSame(repo, p, id, op.parent, op.sections, a, b);
    } else {
      var r, p :| ReviewDeleted(repo, r, op.id, p, a);
      var s, q :| ReviewDeleted(repo, s, op.id, q, b);
      assert r == s && p == q;
      ReviewDeletedSame(repo, r, op.id, p, a, b);
    }
  }

  /** There is only one repository with the effect of an operation. */
  lemma {:induction false} EffectIsUnique(repo: Repo, op: Op, a: Repo, b: Repo)
    requires PlanningInv(repo) && Effect(repo, op, a) && Effect(repo, op, b)
    ensures a == b
  {
    match op
    case CreateItem(given, auto, plan, _, sections) =>
      SameButSame(repo, a, b, {ItemPath(ActiveTree, plan, Chosen(given, auto))});
    case DeleteItem(id) =>
      var p :| ItemDeleted(repo, p, id, a);
      var q :| ItemDeleted(repo, q, id, b);
      SameButSame(repo, a, b, {p});
    case SetState(id, name) => ItemMovedSame(repo, id, name, a, b);
    case SetReviewState(id, name) => ReviewMovedSame(repo, id, name, a, b);
    case UpdateItem(_, _, _, _) => UpdatedSame(repo, op, a, b);
    case UpdateReview(_, _) => UpdatedSame(repo, op, a, b);
    case CreateReview(_, _, _, _, _) => ReviewsSame(repo, op, a, b);
    case DeleteReview(_) => ReviewsSame(repo, op, a, b);
  }

  // ---------------------------------------------------------------- what one operation undoes

  ghost predicate NobodyLinks(repo: Repo, id: string) {
    forall p :: p in repo && repo[p].ItemDoc? ==> id !in repo[p].links
  }

  /** The new review can be deleted again, and that leaves the links as they were. */
  lemma {:induction false} UndoneUnlinked(
    repo: Repo, p: RecordPath, id: string, parent: string, sections: map<string, string>, middle: Repo)
    requires ReviewCreated(repo, p, id, parent, sections, middle) && NobodyLinks(repo, id)
    ensures ReviewDeleted(middle, ReviewPath(ActiveTree, p.plan, parent, id), id, p, repo)
  {
    LinkedAdds(repo[p].links, id, middle[p].links);
    UnlinkedAppended(repo[p].links, id);
    UnlinkedRemoves(middle[p].links, id, repo[p].links);
    forall q | q in middle && middle[q].ItemDoc? ensures id in middle[q].links <==> q == p {
      assert q != p ==> q in repo && middle[q] == repo[q];
    }
  }

  /** A link that was there before the review is not there after its deletion. */
  lemma {:induction false} NotUndone(
    repo: Repo, p: RecordPath, id: string, parent: string, sections: map<string, string>, middle: Repo,
    s: RecordPath, t: RecordPath, q: RecordPath)
    requires ReviewCreated(repo, p, id, parent, sections, middle)
    requires q in repo && repo[q].ItemDoc? && id in repo[q].links
    ensures !ReviewDeleted(middle, s, id, t, repo)
  {
    assert q in middle && middle[q].ItemDoc? && id in middle[q].links by {
      if q == p {
        assert repo[p].links <= middle[p].links;
      }
    }
    assert id in multiset(repo[q].links);
  }

  /**
    Deleting the review that was just created restores the repository exactly when no item linked its id
    before: a link that was there already is taken out with the review, and one of another item makes
    the deletion refused.
   */
  lemma {:induction false} DeleteUndoesCreate(repo: Repo, op: Op, middle: Repo)
    requires PlanningInv(repo) && op.CreateReview? && Permitted(repo, op) && Effect(repo, op, middle)
    ensures var undo := DeleteReview(Chosen(op.given, op.auto));
            Permitted(middle, undo) && Effect(middle, undo, repo) <==> NobodyLinks(repo, Chosen(op.given, op.auto))
  {
    var id := Chosen(op.given, op.auto);
    var p :| ReviewCreated(repo, p, id, op.parent, op.sections, middle);
    Undone(repo, p, id, op.parent, op.sections, middle);
  }

  lemma {:induction false} Undone(
    repo: Repo, p: RecordPath, id: string, parent: string, sections: map<string, string>, middle: Repo)
    requires ReviewCreated(repo, p, id, parent, sections, middle)
    ensures (exists r, q :: ReviewDeleted(middle, r, id, q, repo)) <==> NobodyLinks(repo, id)
    ensures NobodyLinks(repo, id) ==> exists r, q :: ReviewAt(middle, r, id, q)
  {
    if NobodyLinks(repo, id) {
      UndoneUnlinked(repo, p, id, parent, sections, middle);
      assert ReviewAt(middle, ReviewPath(ActiveTree, p.plan, parent, id), id, p);
    } else {
      var q :| q in repo && repo[q].ItemDoc? && id in repo[q].links;
      forall s, t ensures !ReviewDeleted(middle, s, id, t, repo) {
        NotUndone(repo, p, id, parent, sections, middle, s, t, q);
      }
    }
  }

  lemma {:induction false} UnlinkedAppended(links: seq<string>, id: string)
    requires id !in links
    ensures Unlinked(links + [id], id) == links
    decreases |links|
  {
    if links == [] {
      assert [id][1..] == [];
      assert [] + [id] == [id];
    } else {
      assert (links + [id])[1..] == links[1..] + [id];
      UnlinkedAppended(links[1..], id);
    }
  }
}
