/**
 One open conflict a product and channel and one open item a subject, over every run whatsoever: unlike
 coverage, neither depends on reviewers deciding from pages that are up to date.
 */
module Uniqueness {
  import opened Wrappers
  import opened Candidates
  import opened Tables
  import Gates
  import Conflicts
  import Ingest
  import Review
  import Observations
  import opened Coverage
  import opened Runs

  ghost predicate OneOpen(db: Db) {
    OneOpenPerKey(db.conflicts) && OneOpenPerSubject(db.items)
  }

  lemma ReconcilingKeepsOneOpen(os: seq<Conflicts.Observation>, ks: seq<Conflicts.SourceConflict>, a: Ingest.Assessment, now: int)
    requires OneOpenPerKey(ks) && (a.Assessed? ==> a.subject.o.product != "")
    requires Ingest.ReconcileConflict(os, ks, a, now).Success?
    ensures OneOpenPerKey(Ingest.ReconcileConflict(os, ks, a, now).value.conflicts)
  {
    hide RecordObservation, Conflicts.Storable, Conflicts.ValidConflict;
    if a.Assessed? && a.subject.eligible && a.verdict.status == Conflicts.Unresolved {
      UpsertingKeepsOneOpen(ks, Conflicts.NewConflict(a.subject, a.verdict, now));
    }
  }

  lemma UpsertingKeepsOneOpen(ks: seq<Conflicts.SourceConflict>, k: Conflicts.SourceConflict)
    requires OneOpenPerKey(ks) && k.product != ""
    ensures OneOpenPerKey(UpsertOpenConflict(ks, k).0)
  {
    var (after, id, created) := UpsertOpenConflict(ks, k);
    assert forall j | 0 <= j < |ks| && j != id :: after[j] == ks[j];
    if created { assert forall j | 0 <= j < |ks| :: !IsOpenFor(ks[j], k.product, k.channel); }
  }

  /** Linking an item says nothing about which conflicts are open. */
  lemma LinkingKeepsOneOpen(ks: seq<Conflicts.SourceConflict>, outcome: Ingest.ConflictOutcome, item: nat)
    requires OneOpenPerKey(ks)
    ensures OneOpenPerKey(Ingest.LinkReviewItem(ks, outcome, item))
  {
  }

  /** Routing moves a subject only onto one no other open item has, and files an item only for such a one. */
  lemma RoutingKeepsOneOpen(db: Db, id: nat, d: ReviewItem, source: string, a: Ingest.Assessment, outcome: Ingest.ConflictOutcome)
    requires OneOpen(db) && (d.subject == CandidateSubject(id) || d.subject.ConflictSubject?)
    ensures OneOpen(Ingest.RouteToReview(db, id, d, source, a, outcome).0)
  {
    hide OneOpenPerKey, Ingest.LinkReviewItem, Ingest.ReviewPayload;
    var existing := Ingest.OpenItemFor(db.items, outcome, d.subject);
    var next := Ingest.RouteToReview(db, id, d, source, a, outcome).0;
    if existing.None? {
      LinkingKeepsOneOpen(db.conflicts, outcome, |db.items|);
    } else {
      var (i, moves) := Ingest.ChooseItem(db.items, existing.value, d, id, source, a);
      LinkingKeepsOneOpen(db.conflicts, outcome, i);
      assert forall j | 0 <= j < |db.items| && j != i :: next.items[j] == db.items[j];
      if moves {
        forall j | 0 <= j < |db.items| && j != i && IsOpen(db.items[j]) ensures db.items[j].subject != d.subject {}
      }
    }
  }

  lemma ValidationKeepsOneOpen(db: Db, w: World, now: int, id: nat)
    requires OneOpen(db) && Ingest.Validate(db, w, now, id).Success?
    ensures OneOpen(Ingest.Validate(db, w, now, id).value.db)
  {
    hide Ingest.Validate, Ingest.Inspect, Gates.Judge, Ingest.RouteToReview, Ingest.ReviewPayload, Ingest.Priority,
      Ingest.ReconcileConflict, Ingest.BuildContext, Ingest.Assess, Ingest.JudgedRow, OneOpenPerKey, OneOpenPerSubject;
    Ingest.ValidationAnatomy(db, w, now, id);
    var f, rec := Ingest.Inspect(db, w, now, id).value, Ingest.Reconcile(db, w, now, id).value;
    AssessedHasProduct(db, w, now, id);
    ReconcilingKeepsOneOpen(db.observations, db.conflicts, f.a, now);
    if Ingest.NeedsItem(f, rec) {
      var judged := Ingest.Judged(db, f, rec, id, now);
      RoutingKeepsOneOpen(judged, id, Ingest.DesiredItem(w, judged.rows[id].c, id, f.src, f.verdict, f.a, rec.outcome, now),
        db.rows[id].c.source, f.a, rec.outcome);
    }
  }

  lemma AssessedHasProduct(db: Db, w: World, now: int, id: nat)
    requires Ingest.Inspect(db, w, now, id).Success?
    ensures var a := Ingest.Inspect(db, w, now, id).value.a; a.Assessed? ==> a.subject.o.product != ""
  {
    hide ClaimsFor, OwnClaim, Conflicts.AssessSourceConflict, Gates.Judge, Ingest.BuildContext;
  }

  lemma DecisionKeepsOneOpen(db: Db, w: World, now: int, item: nat, seen: ReviewItem, input: Review.Input, accept: bool)
    requires OneOpen(db) && Review.Decide(db, w, now, item, seen, input, accept).Success?
    ensures OneOpen(Review.Decide(db, w, now, item, seen, input, accept).value.db)
  {
    DecisionAnatomy(db, w, now, item, seen, input, accept);
    hide Review.Decide;
  }

  lemma StepKeepsOneOpen(db: Db, e: Delivery)
    requires OneOpen(db)
    ensures OneOpen(Step(db, e))
  {
    hide Ingest.Validate, Review.Decide, OneOpenPerKey, OneOpenPerSubject;
    match e
    case Extraction(source, collected, now) =>
    case ValidationJob(w, now, id) =>
      if Ingest.Validate(db, w, now, id).Success? { ValidationKeepsOneOpen(db, w, now, id); }
    case PublicationJob(w, now, id) =>
    case Decision(w, now, item, input, accept) =>
      if item < |db.items| && Review.Decide(db, w, now, item, db.items[item], input, accept).Success? {
        DecisionKeepsOneOpen(db, w, now, item, db.items[item], input, accept);
      }
    case LateDecision(w, now, item, seen, input, accept) =>
      if Review.Decide(db, w, now, item, seen, input, accept).Success? {
        DecisionKeepsOneOpen(db, w, now, item, seen, input, accept);
      }
  }

  /**
   In every reachable state, however stale the pages reviewers decide from: at most one conflict is open
   for a product and channel, and at most one open item is about a subject.
   */
  lemma {:induction false} RunsKeepOneOpen(es: seq<Delivery>)
    ensures OneOpen(Run(es))
  {
    hide Step;
    if |es| > 0 {
      RunsKeepOneOpen(es[..|es| - 1]);
      StepKeepsOneOpen(Run(es[..|es| - 1]), es[|es| - 1]);
    }
  }
}
