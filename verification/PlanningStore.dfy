/** Planning operations as they run: reconcile the files, decide on one mutation, commit it through the journal. */
module PlanningStore {
  import opened Wrappers
  import opened Journal
  import opened JournalStore
  import opened Planning
  import opened PlanningRuns
  import opened PlanningEffects

  /** A planning repository on disk: the journal below, the decisions above. */
  class Repository {
    const store: Store<RecordPath, Document>

    ghost predicate Valid()
      reads this, store
    {
      store.Tracked() && PlanningInv(Logical(store.Now()))
    }

    constructor ()
      ensures Valid() && fresh(store)
    {
      store := new Store<RecordPath, Document>(map[]);
    }

    /**
      Reconcile, decide, commit.  A refusal, exactly when the operation is not permitted, changes nothing
      but what recovery had to finish; a success has exactly the effect of the operation, and a crash
      anywhere in between shows all of it or none.
     */
    method Perform(op: Op, event: Event) returns (r: Result<(), string>)
      requires Valid() && FreshId(store.Now(), event.id) && Allocated(Logical(store.Now()), op)
      modifies store
      ensures r.Ok? <==> Permitted(Logical(old(store.Now())), op)
      ensures r.Ok? ==> Effect(Logical(old(store.Now())), op, store.files)
      ensures r.Ok? ==> exists x :: Held(store.Now(), x) && Tells(x, event)
      ensures var before := Logical(old(store.Now()));
              var decided := Decide(before, op, Some(event));
              match r {
                case Err(code) => decided == Err(code) && store.files == before && Valid()
                case Ok(_) =>
                  && decided.Ok? && store.files == Post(before, decided.value) && store.Tracked()
                  && AlwaysAllOrNothing(store.origin, store.acts, |old(store.acts)|, before, decided.value)
                  && (Valid() <==> !GuessesReviewPrefix(before, op))
              }
    {
      ghost var before := Logical(store.Now());
      ghost var earlier, start := store.acts, store.Now();
      var _ := store.Reconcile();
      AcceptsPermitted(store.files, op, Some(event));
      match Decide(store.files, op, Some(event)) {
        case Err(code) =>
          return Err(code);
        case Ok(m) =>
          DecisionCommits(before, op, Some(event));
          DecisionKeeps(before, op, Some(event), m);
          DecisionHasEffect(before, op, Some(event), m);
          var committed := store.Commit(m);
          CommitIsAtomic(store.origin, earlier, store.acts, m);
          return Ok(());
      }
    }
  }
}
