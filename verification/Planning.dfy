/**
  Plan items and reviews (planning/items.py, reviews.py, item_store.py, integrity.py, workflows.yaml).

  Every operation looks at the reconciled files, either refuses with an error code or decides on one
  multi-file mutation, and hands that mutation to the journal.  `Decide` is that decision;
  `PlanningInv` is what every run of operations keeps, crashes included.
 */
module Planning {
  import opened Wrappers
  import opened Journal
  import opened RecordIds
  import Text

  datatype ItemState = Pending | InProgress | Finished | Superseded | Deprecated
  datatype ReviewState = Created | Considered | Closed
  datatype Bucket = ActiveTree | CompletedTree

  /** `<bucket>/<plan>/<stem>.md` and `<bucket>/<plan>/reviews/<parent>/<stem>.md`. */
  datatype RecordPath =
    | ItemPath(bucket: Bucket, plan: string, stem: string)
    | ReviewPath(bucket: Bucket, plan: string, parent: string, stem: string)

  /** Frontmatter and parsed body of a record; `links` are the review ids an item body links. */
  datatype Document =
    | ItemDoc(id: string, plan: string, istate: ItemState, sections: map<string, string>, links: seq<string>)
    | ReviewDoc(id: string, plan: string, reviewOf: string, rstate: ReviewState, sections: map<string, string>)

  type Repo = map<RecordPath, Document>
  type Change = Mutation<RecordPath, Document>

  // ---------------------------------------------------------------- workflow

  function ItemStateNamed(name: string): Option<ItemState> {
    if name == "pending" then Some(Pending)
    else if name == "in_progress" then Some(InProgress)
    else if name == "completed" then Some(Finished)
    else if name == "superseded" then Some(Superseded)
    else if name == "deprecated" then Some(Deprecated)
    else None
  }

  function ReviewStateNamed(name: string): Option<ReviewState> {
    if name == "created" then Some(Created)
    else if name == "considered" then Some(Considered)
    else if name == "closed" then Some(Closed)
    else None
  }

  predicate ItemActive(s: ItemState) {
    s.Pending? || s.InProgress?
  }

  predicate ReviewOpen(s: ReviewState) {
    !s.Closed?
  }

  function ItemBucket(s: ItemState): Bucket {
    if ItemActive(s) then ActiveTree else CompletedTree
  }

  function ReviewBucket(s: ReviewState): Bucket {
    if ReviewOpen(s) then ActiveTree else CompletedTree
  }

  /** Same-state writes are allowed; a superseded or deprecated item only goes back to an active state. */
  predicate ItemTransition(from: ItemState, next: ItemState) {
    from == next || ItemActive(next) || ItemActive(from) || from.Finished?
  }

  // ---------------------------------------------------------------- records and lookup

  /** `validate_record_path`: identity, plan, parent and bucket of the document agree with its path. */
  predicate RecordOk(p: RecordPath, d: Document) {
    match p
    case ItemPath(bucket, plan, stem) =>
      && d.ItemDoc? && d.id == stem && d.plan == plan && IsItemId(stem) && IsSlug(plan)
      && bucket == ItemBucket(d.istate)
    case ReviewPath(bucket, plan, parent, stem) =>
      && d.ReviewDoc? && d.id == stem && d.plan == plan && d.reviewOf == parent
      && IsReviewId(stem) && IsItemId(parent) && IsSlug(plan) && bucket == ReviewBucket(d.rstate)
  }

  predicate Searched(p: RecordPath, id: string) {
    p.ReviewPath? <==> StartsRV(id)
  }

  lemma {:induction false} OneElement<T>(s: set<T>, x: T, y: T)
    requires |s| == 1 && x in s && y in s
    ensures x == y
  {
    assert |s - {x}| == 0;
  }

  function Matches(repo: Repo, id: string): set<RecordPath> {
    set p | p in repo && Searched(p, id) && RecordOk(p, repo[p]) && p.stem == id
  }

  /** The valid records under an id; a corrupt record that names the id is an error, not a miss. */
  function FindItem(repo: Repo, id: string): (r: Result<Option<RecordPath>, string>)
    ensures r.Ok? && r.value.Some? ==>
              var p := r.value.value;
                  p in repo && p.stem == id && RecordOk(p, repo[p]) && (p.ReviewPath? <==> StartsRV(id))
  {
    if !IsRecordId(id) then Err("VAL-PLN-035")
    else if exists p :: p in repo && Searched(p, id) && !RecordOk(p, repo[p]) && (p.stem == id || repo[p].id == id) then
      Err("corrupt record")
    else
      var matches := Matches(repo, id);
      if |matches| > 1 then Err("VAL-PLN-036")
      else if matches == {} then Ok(None)
      else
        assert forall p, q :: p in matches && q in matches ==> p == q by {
          forall p, q | p in matches && q in matches ensures p == q { OneElement(matches, p, q); }
        }
        var p :| p in matches;
        Ok(Some(p))
  }

  function RequireItem(repo: Repo, id: string): (r: Result<RecordPath, string>)
    ensures r.Ok? ==> FindItem(repo, id) == Ok(Some(r.value))
  {
    match FindItem(repo, id)
    case Err(code) => Err(code)
    case Ok(None) => Err("VAL-PLN-001")
    case Ok(Some(p)) => Ok(p)
  }

  /** Paths of all reviews filed under an item id, in any plan and bucket. */
  function ReviewsOf(repo: Repo, id: string): set<RecordPath> {
    set p | p in repo && p.ReviewPath? && p.parent == id && StartsRV(p.stem)
  }

  /** The one item whose body links the review is its parent in the same plan. */
  predicate CanonicalContext(repo: Repo, review: RecordPath, parent: RecordPath)
    requires review.ReviewPath?
  {
    && parent in repo && parent.ItemPath? && RecordOk(parent, repo[parent])
    && parent.plan == review.plan && parent.stem == review.parent
    && forall p :: p in repo && p.ItemPath? && RecordOk(p, repo[p]) ==> (review.stem in repo[p].links <==> p == parent)
  }

  function ParentOf(repo: Repo, review: RecordPath): Option<RecordPath>
    requires review.ReviewPath?
  {
    var active, done := ItemPath(ActiveTree, review.plan, review.parent),
        ItemPath(CompletedTree, review.plan, review.parent);
    if active in repo && CanonicalContext(repo, review, active) then Some(active)
    else if done in repo && CanonicalContext(repo, review, done) then Some(done)
    else None
  }

  // ---------------------------------------------------------------- decisions

  function SectionAt(sections: map<string, string>, name: string): string {
    if name in sections then sections[name] else ""
  }

  predicate HasEvidence(sections: map<string, string>) {
    !Text.IsBlank(SectionAt(sections, "validation")) && !Text.IsBlank(SectionAt(sections, "acceptance_criteria"))
  }

  datatype Op =
    | CreateItem(given: Option<string>, auto: string, plan: string, title: string, sections: map<string, string>)
    | SetState(id: string, state: string)
    | UpdateItem(id: string, updates: map<string, string>, append: Option<seq<string>>, links: Option<seq<string>>)
    | DeleteItem(id: string)
    | CreateReview(given: Option<string>, auto: string, parent: string, title: string, sections: map<string, string>)
    | SetReviewState(id: string, state: string)
    | UpdateReview(id: string, updates: map<string, string>)
    | DeleteReview(id: string)

  /** A mutation the journal always accepts: no path twice among the writes, and none both written and deleted. */
  predicate Clean(m: Change) {
    DistinctPaths(m.writes) && forall i :: 0 <= i < |m.writes| ==> m.writes[i].0 !in m.deletes
  }

  function DecideCreateItem(repo: Repo, op: Op, event: Option<Event>): (r: Result<Change, string>)
    requires op.CreateItem?
    ensures r.Ok? ==> Clean(r.value) && r.value.event == event
  {
    if op.plan == "" then Err("VAL-PLN-003")
    else if !IsSlug(op.plan) then Err("VAL-PLN-035")
    else if op.title == "" then Err("VAL-PLN-004")
    else if op.given.Some? && !IsItemId(op.given.value) then Err("VAL-PLN-035")
    else
      var id := if op.given.Some? then op.given.value else op.auto;
      match FindItem(repo, id)
      case Err(code) => Err(code)
      case Ok(Some(_)) => Err("VAL-PLN-005")
      case Ok(None) =>
        Ok(Mutation([(ItemPath(ActiveTree, op.plan, id), ItemDoc(id, op.plan, Pending, op.sections, []))], [], event))
  }

  predicate HasOpenReview(repo: Repo, id: string) {
    exists r :: r in ReviewsOf(repo, id) && repo[r].ReviewDoc? && ReviewOpen(repo[r].rstate)
  }

  function DecideSetState(repo: Repo, id: string, name: string, event: Option<Event>): (r: Result<Change, string>)
    ensures r.Ok? ==> Clean(r.value) && r.value.event == event
  {
    match ItemStateNamed(name)
    case None => Err("VAL-PLN-006")
    case Some(next) =>
      match RequireItem(repo, id)
      case Err(code) => Err(code)
      case Ok(p) =>
        if p !in repo || !repo[p].ItemDoc? then Err("VAL-PLN-019")
        else
          var d := repo[p];
          if !ItemTransition(d.istate, next) then Err("VAL-PLN-014")
          else if next.Finished? && !HasEvidence(d.sections) then Err("VAL-PLN-034")
          else if next.Finished? && HasOpenReview(repo, id) then
            Err("VAL-PLN-041")
          else
            var target := ItemPath(ItemBucket(next), p.plan, p.stem);
            Ok(Mutation([(target, d.(istate := next))], if target != p then [p] else [], event))
  }

  /** Sections are replaced, or extended after a blank line when their name is in `appended`. */
  function Updated(
    sections: map<string, string>, updates: map<string, string>, appended: set<string>): map<string, string>
  {
    map k | k in sections.Keys + updates.Keys ::
      if k !in updates then sections[k]
      else if k in appended && Text.RStrip(SectionAt(sections, k)) != "" then
        Text.RStrip(SectionAt(sections, k)) + "\n\n" + updates[k]
      else updates[k]
  }

  function WithSections(d: Document, sections: map<string, string>): Document {
    match d
    case ItemDoc(id, plan, state, _, links) => ItemDoc(id, plan, state, sections, links)
    case ReviewDoc(id, plan, reviewOf, state, _) => ReviewDoc(id, plan, reviewOf, state, sections)
  }

  const PROTECTED := {"id", "plan", "state", "created-at", "created_at", "review-of", "review_of"}

  predicate Repeats(names: seq<string>) {
    exists i, j :: 0 <= i < j < |names| && names[i] == names[j]
  }

  function DecideUpdateItem(repo: Repo, op: Op, event: Option<Event>): (r: Result<Change, string>)
    requires op.UpdateItem?
    ensures r.Ok? ==> Clean(r.value) && r.value.event == event
  {
    if op.updates.Keys * PROTECTED != {} then Err("VAL-PLN-029")
    else if op.append.Some? && op.append.value != [] && op.updates == map[] then Err("VAL-PLN-027")
    else if op.append.Some? && Repeats(op.append.value) then Err("VAL-PLN-031")
    else if op.updates == map[] then Err("VAL-PLN-030")
    else if op.append.Some? && exists k :: k in op.append.value && k !in op.updates then Err("VAL-PLN-028")
    else match RequireItem(repo, op.id)
      case Err(code) => Err(code)
      case Ok(p) =>
        if p !in repo || !repo[p].ItemDoc? then Err("VAL-PLN-020")
        else
          var appended := if op.append.Some? then Elements(op.append.value) else {"notes"};
          var d := repo[p].(sections := Updated(repo[p].sections, op.updates, appended),
                            links := if op.links.Some? then op.links.value else repo[p].links);
          if d.istate.Finished? && !HasEvidence(d.sections) then Err("VAL-PLN-034")
          else Ok(Mutation([(p, d)], [], event))
  }

  function DecideDeleteItem(repo: Repo, id: string, event: Option<Event>): (r: Result<Change, string>)
    ensures r.Ok? ==> Clean(r.value) && r.value.event == event
  {
    match RequireItem(repo, id)
    case Err(code) => Err(code)
    case Ok(p) =>
      if p !in repo || !repo[p].ItemDoc? then Err("VAL-PLN-021")
      else if ReviewsOf(repo, id) != {} then Err("VAL-PLN-037")
      else Ok(Mutation([], [p], event))
  }

  function Linked(links: seq<string>, id: string): seq<string> {
    if id in links then links else links + [id]
  }

  function Unlinked(links: seq<string>, id: string): seq<string> {
    if links == [] then [] else (if links[0] == id then [] else [links[0]]) + Unlinked(links[1..], id)
  }

  function DecideCreateReview(repo: Repo, op: Op, event: Option<Event>): (r: Result<Change, string>)
    requires op.CreateReview?
    ensures r.Ok? ==> Clean(r.value) && r.value.event == event
  {
    if op.parent == "" then Err("VAL-PLN-008")
    else if !IsItemId(op.parent) then Err("VAL-PLN-035")
    else if op.title == "" then Err("VAL-PLN-009")
    else if op.given.Some? && !IsReviewId(op.given.value) then Err("VAL-PLN-035")
    else match FindItem(repo, op.parent)
      case Err(code) => Err(code)
      case Ok(None) => Err("VAL-PLN-010")
      case Ok(Some(p)) =>
        if p !in repo || !repo[p].ItemDoc? || repo[p].plan != p.plan then Err("VAL-PLN-035")
        else if !ItemActive(repo[p].istate) then Err("VAL-PLN-041")
        else
          var id := if op.given.Some? then op.given.value else op.auto;
          match FindItem(repo, id)
          case Err(code) => Err(code)
          case Ok(Some(_)) => Err("VAL-PLN-011")
          case Ok(None) =>
            Ok(Mutation([(ReviewPath(ActiveTree, p.plan, p.stem, id),
                ReviewDoc(id, p.plan, p.stem, Created, op.sections)),
                         (p, repo[p].(links := Linked(repo[p].links, id)))], [], event))
  }

  function DecideSetReviewState(repo: Repo, id: string, name: string, event: Option<Event>): (r: Result<Change, string>)
    ensures r.Ok? ==> Clean(r.value) && r.value.event == event
  {
    match RequireItem(repo, id)
    case Err(code) => Err(code)
    case Ok(p) =>
      if p !in repo || !p.ReviewPath? || !repo[p].ReviewDoc? then Err("VAL-PLN-013")
      else match ParentOf(repo, p)
        case None => Err("no canonical context")
        case Some(parent) =>
          match ReviewStateNamed(name)
          case None => Err("VAL-PLN-006")
          case Some(next) =>
            if ReviewOpen(next) && parent in repo && repo[parent].ItemDoc? && !ItemActive(repo[parent].istate) then
              Err("VAL-PLN-041")
            else
              var target := ReviewPath(ReviewBucket(next), p.plan, p.parent, p.stem);
              Ok(Mutation([(target, repo[p].(rstate := next))], if target != p then [p] else [], event))
  }

  function DecideUpdateReview(
    repo: Repo, id: string, updates: map<string, string>, event: Option<Event>): (r: Result<Change, string>)
    ensures r.Ok? ==> Clean(r.value) && r.value.event == event
  {
    if updates.Keys * PROTECTED != {} then Err("VAL-PLN-029")
    else if updates == map[] then Err("VAL-PLN-030")
    else match RequireItem(repo, id)
      case Err(code) => Err(code)
      case Ok(p) =>
        if p !in repo || !p.ReviewPath? || !repo[p].ReviewDoc? then Err("VAL-PLN-023")
        else if ParentOf(repo, p).None? then Err("no canonical context")
        else Ok(Mutation([(p, WithSections(repo[p], Updated(repo[p].sections, updates, {})))], [], event))
  }

  function DecideDeleteReview(repo: Repo, id: string, event: Option<Event>): (r: Result<Change, string>)
    ensures r.Ok? ==> Clean(r.value) && r.value.event == event
  {
    match RequireItem(repo, id)
    case Err(code) => Err(code)
    case Ok(p) =>
      if p !in repo || !p.ReviewPath? || !repo[p].ReviewDoc? then Err("VAL-PLN-024")
      else match ParentOf(repo, p)
        case None => Err("no canonical context")
        case Some(parent) =>
          if parent !in repo || !repo[parent].ItemDoc? then Err("no canonical context")
          else Ok(Mutation([(parent, repo[parent].(links := Unlinked(repo[parent].links, id)))], [p], event))
  }

  function Decide(repo: Repo, op: Op, event: Option<Event>): (r: Result<Change, string>)
    ensures r.Ok? ==> Clean(r.value) && r.value.event == event
  {
    match op
    case CreateItem(_, _, _, _, _) => DecideCreateItem(repo, op, event)
    case SetState(id, state) => DecideSetState(repo, id, state, event)
    case UpdateItem(_, _, _, _) => DecideUpdateItem(repo, op, event)
    case DeleteItem(id) => DecideDeleteItem(repo, id, event)
    case CreateReview(_, _, _, _, _) => DecideCreateReview(repo, op, event)
    case SetReviewState(id, state) => DecideSetReviewState(repo, id, state, event)
    case UpdateReview(id, updates) => DecideUpdateReview(repo, id, updates, event)
    case DeleteReview(id) => DecideDeleteReview(repo, id, event)
  }
}
