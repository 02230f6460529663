/**
 The review queue always covers the open conflicts, and never holds two open items about one subject:
 invariants of every run of atomic deliveries.
 */
module Coverage {
  import opened Wrappers
  import opened Text
  import opened Candidates
  import opened Tables
  import Gates
  import Conflicts
  import Releases
  import Ingest
  import Review
  import opened Runs

  /** The conflict is about the candidate's product and channel. */
  predicate Belongs(c: Candidate, k: Conflicts.SourceConflict) {
    c.product == k.product && c.channel == k.channel
  }

  /** An open conflict is linked to an open item whose payload names it. */
  predicate IsCovered(db: Db, k: nat)
    requires k < |db.conflicts|
  {
    && db.conflicts[k].reviewItem.Some?
    && var i := db.conflicts[k].reviewItem.value;
       i < |db.items| && IsOpen(db.items[i]) && db.items[i].payload.conflict == Some(k)
  }

  /** An open item's subject exists and is about the same product and channel as the conflict it names. */
  predicate ItemSound(db: Db, i: ReviewItem) {
    && (i.payload.conflict.Some? ==> i.payload.conflict.value < |db.conflicts|)
    && match i.subject
       case ConflictSubject(k) => i.payload.conflict == Some(k)
       case CandidateSubject(x) =>
         x < |db.rows| && (i.payload.conflict.Some? ==> Belongs(db.rows[x].c, db.conflicts[i.payload.conflict.value]))
  }

  ghost predicate ConflictsCovered(db: Db, but: Option<nat>) {
    forall k | 0 <= k < |db.conflicts| && db.conflicts[k].open && Some(k) != but :: IsCovered(db, k)
  }

  ghost predicate OneOpenPerKey(ks: seq<Conflicts.SourceConflict>) {
    && (forall k | 0 <= k < |ks| :: ks[k].product != "")
    && (forall k, l | 0 <= k < l < |ks| && ks[k].open && ks[l].open ::
          ks[k].product != ks[l].product || ks[k].channel != ks[l].channel)
  }

  ghost predicate ItemsSound(db: Db) {
    forall i | 0 <= i < |db.items| && IsOpen(db.items[i]) :: ItemSound(db, db.items[i])
  }

  /** At most one open item a subject. */
  ghost predicate OneOpenPerSubject(items: seq<ReviewItem>) {
    forall i, j | 0 <= i < j < |items| && IsOpen(items[i]) && IsOpen(items[j]) :: items[i].subject != items[j].subject
  }

  ghost predicate QueueInvariant(db: Db) {
    ConflictsCovered(db, None) && OneOpenPerKey(db.conflicts) && ItemsSound(db) && OneOpenPerSubject(db.items)
  }

  // ---------------------------------------------------------------------------------------------
  // Between reconciliation and routing
  // ---------------------------------------------------------------------------------------------

  /**
   What holds when routing starts: every open conflict but this run's is covered; this run's is the one
   open conflict of the candidate's key, and an item linked to it names it; and without a conflict of
   its own, no conflict of the candidate's key is open.
   */
  ghost predicate AwaitsRouting(db: Db, id: nat, outcome: Ingest.ConflictOutcome) {
    && id < |db.rows|
    && ConflictsCovered(db, outcome.conflict) && OneOpenPerKey(db.conflicts) && ItemsSound(db) && OneOpenPerSubject(db.items)
    && (outcome.conflict.None? ==> outcome.linked.None?)
    && (outcome.conflict.None? ==> forall k | 0 <= k < |db.conflicts| && db.conflicts[k].open :: !Belongs(db.rows[id].c, db.conflicts[k]))
    && (outcome.conflict.Some? ==>
          var k := outcome.conflict.value;
          && k < |db.conflicts| && db.conflicts[k].open && Belongs(db.rows[id].c, db.conflicts[k])
          && db.conflicts[k].reviewItem == outcome.linked
          && (outcome.linked.Some? ==> IsCovered(db, k)))
  }

  /** An item the run may rewrite is linked to no open conflict but the run's own. */
  lemma ChosenItemIsOurs(db: Db, id: nat, outcome: Ingest.ConflictOutcome, d: Subject, i: nat)
    requires AwaitsRouting(db, id, outcome)
    requires d == CandidateSubject(id) || (outcome.conflict.Some? && d == ConflictSubject(outcome.conflict.value))
    requires i < |db.items| && IsOpen(db.items[i])
    requires db.items[i].subject == d || outcome.linked == Some(i)
    ensures forall k | 0 <= k < |db.conflicts| && db.conflicts[k].open && Some(k) != outcome.conflict ::
      db.conflicts[k].reviewItem != Some(i)
    ensures db.items[i].subject.ConflictSubject? ==> Some(db.items[i].subject.conflict) == outcome.conflict
    ensures db.items[i].subject.CandidateSubject? ==>
      && db.items[i].subject.candidate < |db.rows|
      && (outcome.conflict.Some? ==> Belongs(db.rows[db.items[i].subject.candidate].c, db.conflicts[outcome.conflict.value]))
  {
    assert ItemSound(db, db.items[i]);
    if outcome.linked == Some(i) { assert IsCovered(db, outcome.conflict.value); }
    forall k | 0 <= k < |db.conflicts| && db.conflicts[k].open && Some(k) != outcome.conflict
      ensures db.conflicts[k].reviewItem != Some(i)
    {
      assert IsCovered(db, k);
    }
  }

  /** Describing the decision in item i, wherever i came from, completes the invariant. */
  lemma DescribingCompletes(db: Db, id: nat, outcome: Ingest.ConflictOutcome, item: ReviewItem, i: nat)
    requires AwaitsRouting(db, id, outcome)
    requires i <= |db.items| && IsOpen(item) && item.payload.conflict == outcome.conflict && ItemSound(db, item)
    requires forall k | 0 <= k < |db.conflicts| && db.conflicts[k].open && Some(k) != outcome.conflict ::
      db.conflicts[k].reviewItem != Some(i)
    requires forall j | 0 <= j < |db.items| && j != i && IsOpen(db.items[j]) :: db.items[j].subject != item.subject
    ensures QueueInvariant(db.(
      items := if i < |db.items| then db.items[i := item] else db.items + [item],
      conflicts := Ingest.LinkReviewItem(db.conflicts, outcome, i)))
  {
    var items := if i < |db.items| then db.items[i := item] else db.items + [item];
    var next := db.(items := items, conflicts := Ingest.LinkReviewItem(db.conflicts, outcome, i));
    assert forall j | 0 <= j < |items| :: items[j] == if j == i then item else db.items[j];
    assert |next.conflicts| == |db.conflicts|;
    forall k | 0 <= k < |next.conflicts|
      ensures next.conflicts[k] == if Some(k) == outcome.conflict then db.conflicts[k].(reviewItem := Some(i)) else db.conflicts[k] {}
    forall k | 0 <= k < |next.conflicts| && next.conflicts[k].open ensures IsCovered(next, k) {
      if Some(k) != outcome.conflict { assert IsCovered(db, k); }
    }
    forall j | 0 <= j < |items| && IsOpen(items[j]) ensures ItemSound(next, items[j]) {
      if j != i { assert ItemSound(db, db.items[j]); }
    }
  }

  lemma RoutingCompletes(db: Db, id: nat, d: ReviewItem, source: string, a: Ingest.Assessment, outcome: Ingest.ConflictOutcome)
    requires AwaitsRouting(db, id, outcome)
    requires IsOpen(d) && d.payload.conflict == outcome.conflict
    requires d.subject == CandidateSubject(id) || (outcome.conflict.Some? && d.subject == ConflictSubject(outcome.conflict.value))
    ensures QueueInvariant(Ingest.RouteToReview(db, id, d, source, a, outcome).0)
  {
    var existing := Ingest.OpenItemFor(db.items, outcome, d.subject);
    if existing.None? {
      forall k | 0 <= k < |db.conflicts| && db.conflicts[k].open && Some(k) != outcome.conflict
        ensures db.conflicts[k].reviewItem != Some(|db.items|) { assert IsCovered(db, k); }
      DescribingCompletes(db, id, outcome, d, |db.items|);
    } else {
      var (i, moves) := Ingest.ChooseItem(db.items, existing.value, d, id, source, a);
      assert db.items[i].subject == d.subject || outcome.linked == Some(i);
      ChosenItemIsOurs(db, id, outcome, d.subject, i);
      var stored := db.items[i];
      var target := if moves then stored.(kind := d.kind, subject := d.subject) else stored;
      var item := Ingest.Redescribed(target, d);
      assert item.subject == if moves then d.subject else stored.subject;
      forall j | 0 <= j < |db.items| && j != i && IsOpen(db.items[j]) ensures db.items[j].subject != item.subject {
      }
      DescribingCompletes(db, id, outcome, item, i);
      var routed := db.(items := db.items[i := item], conflicts := Ingest.LinkReviewItem(db.conflicts, outcome, i));
      ReleasingKeepsQueue(routed, if moves then Some(stored.subject) else None);
    }
  }

  lemma ReleasingKeepsQueue(db: Db, s: Option<Subject>)
    requires QueueInvariant(db)
    ensures QueueInvariant(Ingest.ReleaseSuperseded(db, s).0)
  {
    var next := Ingest.ReleaseSuperseded(db, s).0;
    assert forall x | 0 <= x < |db.rows| :: next.rows[x].c.product == db.rows[x].c.product && next.rows[x].c.channel == db.rows[x].c.channel;
    SameSubjectsKeepQueue(db, next);
  }

  /** The queue does not depend on anything in a candidate but its product and channel. */
  lemma SameSubjectsKeepQueue(db: Db, next: Db)
    requires QueueInvariant(db)
    requires next.conflicts == db.conflicts && next.items == db.items && |next.rows| >= |db.rows|
    requires forall x | 0 <= x < |db.rows| ::
      next.rows[x].c.product == db.rows[x].c.product && next.rows[x].c.channel == db.rows[x].c.channel
    ensures QueueInvariant(next)
  {
    forall k | 0 <= k < |next.conflicts| && next.conflicts[k].open ensures IsCovered(next, k) { assert IsCovered(db, k); }
    forall i | 0 <= i < |next.items| && IsOpen(next.items[i]) ensures ItemSound(next, next.items[i]) {
      assert ItemSound(db, db.items[i]);
    }
  }

  // ---------------------------------------------------------------------------------------------
  // Reconciliation
  // ---------------------------------------------------------------------------------------------

  /** Closing a conflict leaves the other open ones covered. */
  lemma ClosingKeepsQueue(db: Db, k: nat, actor: string, resolution: string, now: int)
    requires QueueInvariant(db) && k < |db.conflicts|
    ensures QueueInvariant(db.(conflicts := db.conflicts[k := Closed(db.conflicts[k], actor, resolution, now)]))
  {
    var next := db.(conflicts := db.conflicts[k := Closed(db.conflicts[k], actor, resolution, now)]);
    forall j | 0 <= j < |next.conflicts| && next.conflicts[j].open ensures IsCovered(next, j) { assert IsCovered(db, j); }
    forall i | 0 <= i < |next.items| && IsOpen(next.items[i]) ensures ItemSound(next, next.items[i]) {
      assert ItemSound(db, db.items[i]);
    }
  }

  /** A run that ends without a conflict leaves none open for the candidate's product and channel. */
  ghost predicate NoneOpenFor(ks: seq<Conflicts.SourceConflict>, c: Candidate) {
    forall k | 0 <= k < |ks| && ks[k].open :: !Belongs(c, ks[k])
  }

  /** What reconciling a claim does to the queue, c being the candidate with its product settled. */
  lemma ReconcilingAwaits(db: Db, id: nat, c: Candidate, a: Ingest.Assessment, now: int)
    requires QueueInvariant(db) && id < |db.rows| && db.rows[id].c == c
    requires if a.Skipped? then c.product == "" else a.subject.o.product == c.product != "" && a.subject.o.channel == c.channel
    requires Ingest.ReconcileConflict(db.observations, db.conflicts, a, now).Success?
    ensures var rec := Ingest.ReconcileConflict(db.observations, db.conflicts, a, now).value;
      && (rec.outcome.conflict.Some? ==> a.Assessed? && AwaitsRouting(db.(conflicts := rec.conflicts), id, rec.outcome))
      && (rec.outcome.conflict.None? ==> rec.outcome.linked.None? && QueueInvariant(db.(conflicts := rec.conflicts)))
      && (rec.outcome.conflict.None? && (a.Assessed? ==> a.subject.eligible) ==> NoneOpenFor(rec.conflicts, c))
  {
    if a.Assessed? && a.subject.eligible {
      if a.verdict.status == Conflicts.Unresolved {
        var k := Conflicts.NewConflict(a.subject, a.verdict, now);
        UpsertingAwaits(db, id, k);
      } else {
        var found := OpenConflictFor(db.conflicts, c.product, c.channel);
        if found.Some? {
          var resolution := if |a.verdict.outrankedVersions| > 0 then "resolved by source authority" else "sources agree";
          ClosingKeepsQueue(db, found.value, Ingest.SYSTEM, resolution, now);
          var ks := db.conflicts[found.value := Closed(db.conflicts[found.value], Ingest.SYSTEM, resolution, now)];
          forall k | 0 <= k < |ks| && ks[k].open ensures !Belongs(c, ks[k]) {}
        }
      }
    }
  }

  /** Opening or refreshing the conflict of the candidate's key. */
  lemma UpsertingAwaits(db: Db, id: nat, k: Conflicts.SourceConflict)
    requires QueueInvariant(db) && id < |db.rows|
    requires k.open && k.reviewItem.None? && k.product != "" && Belongs(db.rows[id].c, k)
    ensures var (ks, n, _) := UpsertOpenConflict(db.conflicts, k);
      n < |ks| && AwaitsRouting(db.(conflicts := ks), id, Ingest.ConflictOutcome(Some(n), ks[n].reviewItem))
  {
    var (ks, n, created) := UpsertOpenConflict(db.conflicts, k);
    var next := db.(conflicts := ks);
    assert forall j | 0 <= j < |db.conflicts| && j != n :: ks[j] == db.conflicts[j];
    if !created { assert IsCovered(db, n); }
    forall j | 0 <= j < |ks| && ks[j].open && j != n ensures IsCovered(next, j) { assert IsCovered(db, j); }
    forall i | 0 <= i < |next.items| && IsOpen(next.items[i]) ensures ItemSound(next, next.items[i]) {
      assert ItemSound(db, db.items[i]);
    }
  }

  /** Settling a product on a candidate that had none disturbs no item, for every conflict has a product. */
  lemma SettlingKeepsQueue(db: Db, id: nat, row: Row)
    requires QueueInvariant(db) && id < |db.rows|
    requires row.c.channel == db.rows[id].c.channel
    requires row.c.product == db.rows[id].c.product || db.rows[id].c.product == ""
    ensures QueueInvariant(db.(rows := db.rows[id := row]))
  {
    var next := db.(rows := db.rows[id := row]);
    forall k | 0 <= k < |next.conflicts| && next.conflicts[k].open ensures IsCovered(next, k) { assert IsCovered(db, k); }
    forall i | 0 <= i < |next.items| && IsOpen(next.items[i]) ensures ItemSound(next, next.items[i]) {
      assert ItemSound(db, db.items[i]);
    }
  }

  // ---------------------------------------------------------------------------------------------
  // Every delivery
  // ---------------------------------------------------------------------------------------------

  lemma ValidationKeepsQueue(db: Db, w: World, now: int, id: nat)
    requires QueueInvariant(db) && Ingest.Validate(db, w, now, id).Success?
    ensures QueueInvariant(Ingest.Validate(db, w, now, id).value.db)
  {
    hide Ingest.Validate, Ingest.Inspect, Ingest.ReconcileConflict, Gates.Judge, Ingest.RouteToReview,
      Ingest.ReviewPayload, Ingest.Priority, QueueInvariant, AwaitsRouting;
    Ingest.ValidationAnatomy(db, w, now, id);
    var f, rec := Ingest.Inspect(db, w, now, id).value, Ingest.Reconcile(db, w, now, id).value;
    var judged := Ingest.Judged(db, f, rec, id, now);
    var c := judged.rows[id].c;
    SettlingKeepsQueue(db, id, judged.rows[id]);
    var settled := db.(rows := judged.rows);
    ReconcilingAwaits(settled, id, c, f.a, now);
    var ready := settled.(conflicts := rec.conflicts);
    if rec.outcome.conflict.Some? {
      AwaitsOnlyTheQueue(ready, judged, id, rec.outcome);
    } else {
      SameSubjectsKeepQueue(ready, judged);
    }
    if Ingest.NeedsItem(f, rec) {
      if rec.outcome.conflict.None? {
        Ingest.OnlyEligibleReachReview(db, w, now, id);
        QuietAwaits(judged, id, rec.outcome);
      }
      var d := Ingest.DesiredItem(w, c, id, f.src, f.verdict, f.a, rec.outcome, now);
      Ingest.PayloadNamesConflict(f.verdict.results, rec.outcome, f.a);
      RoutingCompletes(judged, id, d, c.source, f.a, rec.outcome);
    }
  }

  lemma QuietAwaits(db: Db, id: nat, outcome: Ingest.ConflictOutcome)
    requires QueueInvariant(db) && id < |db.rows| && outcome == Ingest.NO_CONFLICT && NoneOpenFor(db.conflicts, db.rows[id].c)
    ensures AwaitsRouting(db, id, outcome)
  {
  }

  lemma AwaitsOnlyTheQueue(db: Db, next: Db, id: nat, outcome: Ingest.ConflictOutcome)
    requires AwaitsRouting(db, id, outcome)
    requires next.rows == db.rows && next.conflicts == db.conflicts && next.items == db.items
    ensures AwaitsRouting(next, id, outcome)
  {
    forall k | 0 <= k < |db.conflicts| && db.conflicts[k].open && Some(k) != outcome.conflict
      ensures IsCovered(next, k) { assert IsCovered(db, k); }
    forall i | 0 <= i < |next.items| && IsOpen(next.items[i]) ensures ItemSound(next, next.items[i]) {
      assert ItemSound(db, db.items[i]);
    }
  }

  lemma PublicationKeepsQueue(db: Db, w: World, now: int, id: nat)
    requires QueueInvariant(db) && Ingest.PublishRelease(db, w, now, id).Success?
    ensures QueueInvariant(Ingest.PublishRelease(db, w, now, id).value.db)
  {
    SameSubjectsKeepQueue(db, Ingest.PublishRelease(db, w, now, id).value.db);
  }

  /** Resolving an item is harmless to the queue as long as no open conflict rests on it alone. */
  lemma ResolvingKeepsQueue(db: Db, item: nat, row: ReviewItem)
    requires QueueInvariant(db) && item < |db.items| && !IsOpen(row)
    requires forall k | 0 <= k < |db.conflicts| && db.conflicts[k].open :: db.conflicts[k].reviewItem != Some(item)
    ensures QueueInvariant(db.(items := db.items[item := row]))
  {
    var next := db.(items := db.items[item := row]);
    forall k | 0 <= k < |next.conflicts| && next.conflicts[k].open ensures IsCovered(next, k) { assert IsCovered(db, k); }
    forall i | 0 <= i < |next.items| && IsOpen(next.items[i]) ensures ItemSound(next, next.items[i]) {
      assert ItemSound(db, db.items[i]);
    }
  }

  /** The open conflict, if any, that an item is covering. */
  ghost predicate Covers(db: Db, k: nat, item: nat) {
    k < |db.conflicts| && db.conflicts[k].open && db.conflicts[k].reviewItem == Some(item)
  }

  /** The shape of a successful decision: one item resolved, its conflict closed, candidates only moved. */
  lemma DecisionAnatomy(db: Db, w: World, now: int, item: nat, seen: ReviewItem, input: Review.Input, accept: bool)
    requires Review.Decide(db, w, now, item, seen, input, accept).Success?
    ensures var next := Review.Decide(db, w, now, item, seen, input, accept).value.db;
      && item < |db.items| && IsOpen(db.items[item]) && IsOpen(seen)
      && |next.items| == |db.items| && next.items[item].state == Resolved
      && next.items == db.items[item := next.items[item]]
      && (seen.payload.conflict.None? ==> next.conflicts == db.conflicts)
      && (seen.payload.conflict.Some? ==>
            var k := seen.payload.conflict.value;
            k < |db.conflicts| && db.conflicts[k].open
              && next.conflicts == db.conflicts[k := Closed(db.conflicts[k], input.actor, Review.Resolution(input, accept), now)])
      && |next.rows| == |db.rows|
      && forall x | 0 <= x < |db.rows| ::
           next.rows[x].c.product == db.rows[x].c.product && next.rows[x].c.channel == db.rows[x].c.channel
  {
  }

  /**
   A decision keeps the queue invariant exactly when the page it was made on named the open conflict,
   if any, that the item now covers; a page that is up to date always does.
   */
  lemma DecisionKeepsQueueIff(db: Db, w: World, now: int, item: nat, seen: ReviewItem, input: Review.Input, accept: bool)
    requires QueueInvariant(db) && Review.Decide(db, w, now, item, seen, input, accept).Success?
    ensures QueueInvariant(Review.Decide(db, w, now, item, seen, input, accept).value.db)
      <==> forall k: nat | Covers(db, k, item) :: seen.payload.conflict == Some(k)
    ensures seen == db.items[item] ==> forall k: nat | Covers(db, k, item) :: seen.payload.conflict == Some(k)
  {
    var next := Review.Decide(db, w, now, item, seen, input, accept).value.db;
    DecisionAnatomy(db, w, now, item, seen, input, accept);
    hide Review.Decide;
    forall k: nat | Covers(db, k, item) ensures db.items[item].payload.conflict == Some(k) { assert IsCovered(db, k); }
    if forall k: nat | Covers(db, k, item) :: seen.payload.conflict == Some(k) {
      var settled := db.(conflicts := next.conflicts);
      if seen.payload.conflict.Some? { ClosingKeepsQueue(db, seen.payload.conflict.value, input.actor, Review.Resolution(input, accept), now); }
      ResolvingKeepsQueue(settled, item, next.items[item]);
      SameSubjectsKeepQueue(settled.(items := next.items), next);
    } else {
      var k: nat :| Covers(db, k, item) && seen.payload.conflict != Some(k);
      assert next.conflicts[k] == db.conflicts[k];
      assert !IsCovered(next, k);
    }
  }

  lemma ExtractionKeepsQueue(db: Db, source: string, collected: Candidate, now: int)
    requires QueueInvariant(db) && Ingest.Extract(db, source, collected, now).Success?
    ensures QueueInvariant(Ingest.Extract(db, source, collected, now).value)
  {
    SameSubjectsKeepQueue(db, Ingest.Extract(db, source, collected, now).value);
  }

  /** A decision from a page loaded earlier that still names the open conflict, if any, its item covers. */
  ghost predicate PageStillApplies(db: Db, e: Delivery) {
    e.LateDecision? ==> forall k: nat | Covers(db, k, e.item) :: e.seen.payload.conflict == Some(k)
  }

  lemma StepKeepsQueue(db: Db, e: Delivery)
    requires QueueInvariant(db) && PageStillApplies(db, e)
    ensures QueueInvariant(Step(db, e))
  {
    hide Ingest.Extract, Ingest.Validate, Ingest.PublishRelease, Review.Decide, QueueInvariant;
    match e
    case Extraction(source, collected, now) =>
      if Ingest.Extract(db, source, collected, now).Success? { ExtractionKeepsQueue(db, source, collected, now); }
    case ValidationJob(w, now, id) =>
      if Ingest.Validate(db, w, now, id).Success? { ValidationKeepsQueue(db, w, now, id); }
    case PublicationJob(w, now, id) =>
      if Ingest.PublishRelease(db, w, now, id).Success? { PublicationKeepsQueue(db, w, now, id); }
    case Decision(w, now, item, input, accept) =>
      if item < |db.items| && Review.Decide(db, w, now, item, db.items[item], input, accept).Success? {
        DecisionKeepsQueueIff(db, w, now, item, db.items[item], input, accept);
      }
    case LateDecision(w, now, item, seen, input, accept) =>
      if Review.Decide(db, w, now, item, seen, input, accept).Success? {
        DecisionKeepsQueueIff(db, w, now, item, seen, input, accept);
      }
  }

  /**
   In every state a run can reach whose late decisions, if any, come from pages that still apply: every
   open conflict is linked to an open item whose payload names it, one conflict is open a product and
   channel, and no two open items share a subject.
   */
  lemma {:induction false} RunsKeepTheQueue(es: seq<Delivery>)
    requires forall i | 0 <= i < |es| :: PageStillApplies(Run(es[..i]), es[i])
    ensures QueueInvariant(Run(es))
  {
    hide Step, PageStillApplies;
    if |es| > 0 {
      var init, n := es[..|es| - 1], |es| - 1;
      forall i | 0 <= i < n ensures PageStillApplies(Run(init[..i]), init[i]) { assert init[..i] == es[..i]; }
      RunsKeepTheQueue(init);
      StepKeepsQueue(Run(init), es[n]);
    }
  }

  // ---------------------------------------------------------------------------------------------
  // What a validation leaves for a human to decide
  // ---------------------------------------------------------------------------------------------

  /**
   A validation reports an item exactly when it asked for a human or found a disagreement. The item is
   open, names the run's conflict, and is about the candidate or lists it among those in dispute.
   */
  lemma ReportedItemCoversCandidate(db: Db, w: World, now: int, id: nat)
    requires Ingest.Validate(db, w, now, id).Success?
    ensures var v := Ingest.Validate(db, w, now, id).value;
      && (v.item.Some? <==> v.decision == Gates.ReviewRequired || v.conflict.Some?)
      && (v.item.Some? ==>
            && v.item.value < |v.db.items| && IsOpen(v.db.items[v.item.value])
            && v.db.items[v.item.value].payload.conflict == v.conflict
            && (v.db.items[v.item.value].subject == CandidateSubject(id)
                || id in v.db.items[v.item.value].payload.candidates))
  {
    hide Ingest.Validate, Ingest.Inspect, Ingest.Reconcile, Gates.Judge, Ingest.Priority, Ingest.RouteToReview,
      Ingest.ReviewPayload, Ingest.ReconcileConflict, Ingest.BuildContext, Ingest.JudgedRow;
    Ingest.ValidationAnatomy(db, w, now, id);
    var f, rec := Ingest.Inspect(db, w, now, id).value, Ingest.Reconcile(db, w, now, id).value;
    Ingest.OutcomeShape(db.observations, db.conflicts, f.a, now);
    if Ingest.NeedsItem(f, rec) {
      var judged := Ingest.Judged(db, f, rec, id, now);
      var d := Ingest.DesiredItem(w, judged.rows[id].c, id, f.src, f.verdict, f.a, rec.outcome, now);
      Ingest.PayloadNamesConflict(f.verdict.results, rec.outcome, f.a);
      RoutedItemDescribes(judged, id, d, db.rows[id].c.source, f.a, rec.outcome);
    }
  }

  /** Whatever item routing settles on carries the desired description, on a subject it may keep. */
  lemma RoutedItemDescribes(db: Db, id: nat, d: ReviewItem, source: string, a: Ingest.Assessment, outcome: Ingest.ConflictOutcome)
    requires IsOpen(d) && (outcome.conflict.None? ==> outcome.linked.None?)
    ensures var (next, i, _) := Ingest.RouteToReview(db, id, d, source, a, outcome);
      && i < |next.items| && IsOpen(next.items[i]) && next.items[i].payload == d.payload
      && (next.items[i].subject == d.subject || outcome.linked == Some(i))
  {
  }

  // ---------------------------------------------------------------------------------------------
  // Two consequences a maintainer should know
  // ---------------------------------------------------------------------------------------------

  /** Nothing stands in the way of an item: its conflict, if it names one, is still open. */
  predicate ConflictStillOpen(db: Db, i: ReviewItem) {
    i.payload.conflict.Some? ==> i.payload.conflict.value < |db.conflicts| && db.conflicts[i.payload.conflict.value].open
  }

  /** A candidate can be accepted or rejected: it exists and has not been superseded. */
  predicate SubjectAnswerable(db: Db, s: Subject) {
    s.CandidateSubject? ==> s.candidate < |db.rows| && db.rows[s.candidate].c.state != Superseded
  }

  /** Some answer to an item, as its page shows it now, would be carried out. */
  ghost predicate CanBeDecided(db: Db, w: World, now: int, item: nat, input: Review.Input) {
    item < |db.items| && exists accept :: Review.Decide(db, w, now, item, db.items[item], input, accept).Success?
  }

  /**
   Which items a human who gives a name and a reason can decide one way or the other: the open ones with
   an answerable subject whose conflict is still open. An item whose conflict the pipeline has closed on its own can be decided
   neither way, whatever is written on it: closing the conflict again fails and undoes the decision.
   */
  lemma DecidableIff(db: Db, w: World, now: int, item: nat, input: Review.Input)
    requires item < |db.items|
    ensures CanBeDecided(db, w, now, item, input) <==>
      (&& !Blank(input.actor) && !Blank(input.reason)
       && IsOpen(db.items[item]) && SubjectAnswerable(db, db.items[item].subject) && ConflictStillOpen(db, db.items[item]))
  {
    hide Review.Decide, Blank;
    var i := db.items[item];
    if CanBeDecided(db, w, now, item, input) {
      var accept :| Review.Decide(db, w, now, item, i, input, accept).Success?;
      DecisionAnatomy(db, w, now, item, i, input, accept);
      DecisionAnswers(db, w, now, item, i, input, accept);
    }
    if !Blank(input.actor) && !Blank(input.reason) && IsOpen(i) && SubjectAnswerable(db, i.subject) && ConflictStillOpen(db, i) {
      AnswerSucceeds(db, w, now, item, input);
    }
  }

  lemma DecisionAnswers(db: Db, w: World, now: int, item: nat, seen: ReviewItem, input: Review.Input, accept: bool)
    requires Review.Decide(db, w, now, item, seen, input, accept).Success?
    ensures SubjectAnswerable(db, seen.subject) && !Blank(input.actor) && !Blank(input.reason)
  {
    hide Blank, Ingest.Committed, Ingest.ReleaseFor, Releases.ValidRelease, Releases.EligibleForLatest, CompliancePermitsCollection;
  }

  /** Accepting a published candidate, or rejecting any other, goes through. */
  lemma AnswerSucceeds(db: Db, w: World, now: int, item: nat, input: Review.Input)
    requires item < |db.items| && !Blank(input.actor) && !Blank(input.reason)
    requires IsOpen(db.items[item]) && SubjectAnswerable(db, db.items[item].subject) && ConflictStillOpen(db, db.items[item])
    ensures var s := db.items[item].subject;
      var accept := s.CandidateSubject? && db.rows[s.candidate].c.state == Published;
      Review.Decide(db, w, now, item, db.items[item], input, accept).Success?
  {
    hide Ingest.Committed, Ingest.ReleaseFor, Releases.ValidRelease, Blank;
  }

  ghost predicate NoneSuperseded(db: Db) {
    forall x | 0 <= x < |db.rows| :: db.rows[x].c.state != Superseded
  }

  /** No use case supersedes a candidate. */
  lemma StepSupersedesNone(db: Db, e: Delivery)
    requires NoneSuperseded(db)
    ensures NoneSuperseded(Step(db, e))
  {
    hide Ingest.Validate, Ingest.PublishRelease, Review.Decide;
    match e
    case ValidationJob(w, now, id) =>
      if Ingest.Validate(db, w, now, id).Success? { ValidationSupersedesNone(db, w, now, id); }
    case PublicationJob(w, now, id) =>
      if Ingest.PublishRelease(db, w, now, id).Success? { PublicationSupersedesNone(db, w, now, id); }
    case Decision(w, now, item, input, accept) =>
      if item < |db.items| && Review.Decide(db, w, now, item, db.items[item], input, accept).Success? {
        DecisionSupersedesNone(db, w, now, item, db.items[item], input, accept);
      }
    case LateDecision(w, now, item, seen, input, accept) =>
      if Review.Decide(db, w, now, item, seen, input, accept).Success? {
        DecisionSupersedesNone(db, w, now, item, seen, input, accept);
      }
    case _ =>
  }

  lemma PublicationSupersedesNone(db: Db, w: World, now: int, id: nat)
    requires NoneSuperseded(db) && Ingest.PublishRelease(db, w, now, id).Success?
    ensures NoneSuperseded(Ingest.PublishRelease(db, w, now, id).value.db)
  {
    hide Releases.Publish, Ingest.ReleaseFor;
  }

  lemma DecisionSupersedesNone(db: Db, w: World, now: int, item: nat, seen: ReviewItem, input: Review.Input, accept: bool)
    requires NoneSuperseded(db) && Review.Decide(db, w, now, item, seen, input, accept).Success?
    ensures NoneSuperseded(Review.Decide(db, w, now, item, seen, input, accept).value.db)
  {
    hide Ingest.PublishRelease;
    var resolved := db.(items := db.items[item := db.items[item].(
      state := Resolved, resolution := Review.Resolution(input, accept), resolvedBy := input.actor, resolvedAt := now)]);
    if accept && seen.subject.CandidateSubject? { PublicationSupersedesNone(resolved, w, now, seen.subject.candidate); }
  }

  lemma ValidationSupersedesNone(db: Db, w: World, now: int, id: nat)
    requires NoneSuperseded(db) && Ingest.Validate(db, w, now, id).Success?
    ensures NoneSuperseded(Ingest.Validate(db, w, now, id).value.db)
  {
    hide Ingest.Validate, Ingest.Inspect, Ingest.ReconcileConflict, Gates.Judge, PathTo, Ingest.DesiredItem,
      Ingest.RouteToReview, Ingest.BuildContext, Ingest.Assess, Ingest.ResolveProduct;
    Ingest.ValidationAnatomy(db, w, now, id);
    var f, rec := Ingest.Inspect(db, w, now, id).value, Ingest.Reconcile(db, w, now, id).value;
    PathToArrivesOrStays(db.rows[id].c.state, Ingest.StateFor(f.verdict.decision));
    var judged := Ingest.Judged(db, f, rec, id, now);
    assert NoneSuperseded(judged);
    if Ingest.NeedsItem(f, rec) {
      RoutingSupersedesNone(judged, id,
        Ingest.DesiredItem(w, judged.rows[id].c, id, f.src, f.verdict, f.a, rec.outcome, now), db.rows[id].c.source, f.a, rec.outcome);
    }
  }

  lemma RoutingSupersedesNone(db: Db, id: nat, d: ReviewItem, source: string, a: Ingest.Assessment, outcome: Ingest.ConflictOutcome)
    requires NoneSuperseded(db)
    ensures NoneSuperseded(Ingest.RouteToReview(db, id, d, source, a, outcome).0)
  {
    hide Ingest.OpenItemFor, Ingest.ChooseItem, Ingest.LinkReviewItem;
  }

  lemma {:induction false} RunsSupersedeNone(es: seq<Delivery>)
    ensures NoneSuperseded(Run(es))
  {
    hide Step;
    if |es| > 0 {
      RunsSupersedeNone(es[..|es| - 1]);
      StepSupersedesNone(Run(es[..|es| - 1]), es[|es| - 1]);
    }
  }

  /** In every reachable state whose pages still applied, an open item can be decided exactly while its conflict is open. */
  lemma OpenItemIsDecidableIff(es: seq<Delivery>, w: World, now: int, item: nat, input: Review.Input)
    requires forall i | 0 <= i < |es| :: PageStillApplies(Run(es[..i]), es[i])
    requires item < |Run(es).items| && IsOpen(Run(es).items[item]) && !Blank(input.actor) && !Blank(input.reason)
    ensures CanBeDecided(Run(es), w, now, item, input) <==> ConflictStillOpen(Run(es), Run(es).items[item])
  {
    hide CanBeDecided, Run;
    RunsKeepTheQueue(es);
    RunsSupersedeNone(es);
    DecidableIff(Run(es), w, now, item, input);
    assert ItemSound(Run(es), Run(es).items[item]);
  }

  /**
   The stale page that breaks coverage: the item was shown before it named the conflict it now covers.
   Resolving it from that page leaves the conflict open with nobody to answer it.
   */
  lemma StalePageUncoversConflict(db: Db, w: World, now: int, k: nat, item: nat, seen: ReviewItem, input: Review.Input, accept: bool)
    requires QueueInvariant(db) && Covers(db, k, item) && seen.payload.conflict.None?
    requires Review.Decide(db, w, now, item, seen, input, accept).Success?
    ensures var next := Review.Decide(db, w, now, item, seen, input, accept).value.db;
      k < |next.conflicts| && next.conflicts[k].open && !IsCovered(next, k)
  {
    DecisionAnatomy(db, w, now, item, seen, input, accept);
  }
}
