/**
 Whether every candidate parked for a human is named by some open item, as its subject or among the
 candidates in dispute: exactly when a step that rewrites or resolves an item keeps it so.
 */
module Parking {
  import opened Wrappers
  import opened Candidates
  import opened Tables
  import Gates
  import Releases
  import Ingest
  import Review
  import Coverage
  import opened Runs

  predicate Parked(db: Db, x: nat) {
    x < |db.rows| && db.rows[x].c.state == HumanReviewRequired
  }

  predicate Names(i: ReviewItem, x: nat) {
    IsOpen(i) && (i.subject == CandidateSubject(x) || x in i.payload.candidates)
  }

  /** Some item other than the one at a position names the candidate. */
  ghost predicate NamedElsewhere(items: seq<ReviewItem>, i: nat, x: nat) {
    exists j | 0 <= j < |items| && j != i :: Names(items[j], x)
  }

  ghost predicate NamedByQueue(items: seq<ReviewItem>, x: nat) {
    exists j | 0 <= j < |items| :: Names(items[j], x)
  }

  /** Whoever waits for a human is on some page a human can open. */
  ghost predicate ParkedAreNamed(db: Db) {
    forall x: nat | Parked(db, x) :: NamedByQueue(db.items, x)
  }

  /** Replacing one item, or adding one, leaves a candidate named by the new item or by another. */
  lemma NamedAfter(items: seq<ReviewItem>, i: nat, item: ReviewItem, x: nat)
    requires i <= |items|
    ensures var next := if i < |items| then items[i := item] else items + [item];
      NamedByQueue(next, x) <==> Names(item, x) || NamedElsewhere(items, i, x)
  {
    var next := if i < |items| then items[i := item] else items + [item];
    assert next[i] == item;
    if NamedElsewhere(items, i, x) {
      var j :| 0 <= j < |items| && j != i && Names(items[j], x);
      assert next[j] == items[j];
    }
    if NamedByQueue(next, x) {
      var j :| 0 <= j < |next| && Names(next[j], x);
      assert j != i ==> next[j] == items[j];
    }
  }

  // ---------------------------------------------------------------------------------------------
  // Routing
  // ---------------------------------------------------------------------------------------------

  /** The item a run rewrites or adds, the subject it ends up with, and the subject it gives up. */
  datatype Target = Target(item: nat, subject: Subject, given: Option<Subject>)

  function TargetOf(items: seq<ReviewItem>, id: nat, d: ReviewItem, source: string, a: Ingest.Assessment, outcome: Ingest.ConflictOutcome): (t: Target)
    ensures t.item <= |items|
  {
    var existing := Ingest.OpenItemFor(items, outcome, d.subject);
    if existing.None? then Target(|items|, d.subject, None)
    else
      var (i, moves) := Ingest.ChooseItem(items, existing.value, d, id, source, a);
      if moves then Target(i, d.subject, Some(items[i].subject)) else Target(i, items[i].subject, None)
  }

  /**
   Nobody parked is forgotten by the run: whoever is named by no item but the one it rewrites is among
   the candidates of the new payload, or is its subject, or was the subject given up, which is rejected.
   */
  ghost predicate RoutingForgetsNone(db: Db, id: nat, d: ReviewItem, source: string, a: Ingest.Assessment, outcome: Ingest.ConflictOutcome) {
    var t := TargetOf(db.items, id, d, source, a, outcome);
    forall x: nat | Parked(db, x) && !NamedElsewhere(db.items, t.item, x) ::
      x in d.payload.candidates || t.subject == CandidateSubject(x) || t.given == Some(CandidateSubject(x))
  }

  /** After routing every parked candidate is named exactly when the run forgets none of those only its item named. */
  lemma RoutingKeepsParkedNamedIff(db: Db, id: nat, d: ReviewItem, source: string, a: Ingest.Assessment, outcome: Ingest.ConflictOutcome)
    requires IsOpen(d)
    ensures ParkedAreNamed(Ingest.RouteToReview(db, id, d, source, a, outcome).0)
      <==> RoutingForgetsNone(db, id, d, source, a, outcome)
  {
    var next := Ingest.RouteToReview(db, id, d, source, a, outcome).0;
    var t := TargetOf(db.items, id, d, source, a, outcome);
    RoutedAnatomy(db, id, d, source, a, outcome);
    hide Ingest.RouteToReview, TargetOf;
    forall x: nat
      ensures Parked(next, x) <==> Parked(db, x) && t.given != Some(CandidateSubject(x))
      ensures NamedByQueue(next.items, x) <==>
        x in d.payload.candidates || t.subject == CandidateSubject(x) || NamedElsewhere(db.items, t.item, x)
    {
      NamedAfter(db.items, t.item, next.items[t.item], x);
    }
  }

  /** What routing leaves of the queue and of the rows. */
  lemma RoutedAnatomy(db: Db, id: nat, d: ReviewItem, source: string, a: Ingest.Assessment, outcome: Ingest.ConflictOutcome)
    requires IsOpen(d)
    ensures var next, t := Ingest.RouteToReview(db, id, d, source, a, outcome).0, TargetOf(db.items, id, d, source, a, outcome);
      && t.item < |next.items| && IsOpen(next.items[t.item])
      && next.items == (if t.item < |db.items| then db.items[t.item := next.items[t.item]] else db.items + [next.items[t.item]])
      && next.items[t.item].payload == d.payload && next.items[t.item].subject == t.subject
      && |next.rows| == |db.rows|
      && forall x: nat :: Parked(next, x) <==> Parked(db, x) && t.given != Some(CandidateSubject(x))
  {
  }

  /** A validation that files or rewrites an item keeps the parked named exactly when its routing forgets none. */
  ghost predicate ValidationForgetsNone(db: Db, w: World, now: int, id: nat) {
    Ingest.Validate(db, w, now, id).Success? ==>
      (Ingest.ValidationAnatomy(db, w, now, id);
       var f, rec := Ingest.Inspect(db, w, now, id).value, Ingest.Reconcile(db, w, now, id).value;
       var judged := Ingest.Judged(db, f, rec, id, now);
       Ingest.NeedsItem(f, rec) ==>
         RoutingForgetsNone(judged, id,
           Ingest.DesiredItem(w, judged.rows[id].c, id, f.src, f.verdict, f.a, rec.outcome, now),
           db.rows[id].c.source, f.a, rec.outcome))
  }

  lemma ValidationKeepsParkedNamedIff(db: Db, w: World, now: int, id: nat)
    requires ParkedAreNamed(db) && Ingest.Validate(db, w, now, id).Success?
    ensures ParkedAreNamed(Ingest.Validate(db, w, now, id).value.db) <==> ValidationForgetsNone(db, w, now, id)
  {
    hide Ingest.Validate, Ingest.Inspect, Ingest.ReconcileConflict, Gates.Judge, PathTo, Ingest.ReviewPayload, Ingest.Priority,
      Ingest.RouteToReview, Ingest.BuildContext, Ingest.Assess, Ingest.ResolveProduct, RoutingForgetsNone, NamedByQueue;
    Ingest.ValidationAnatomy(db, w, now, id);
    var f, rec := Ingest.Inspect(db, w, now, id).value, Ingest.Reconcile(db, w, now, id).value;
    var judged := Ingest.Judged(db, f, rec, id, now);
    if Ingest.NeedsItem(f, rec) {
      var d := Ingest.DesiredItem(w, judged.rows[id].c, id, f.src, f.verdict, f.a, rec.outcome, now);
      RoutingKeepsParkedNamedIff(judged, id, d, db.rows[id].c.source, f.a, rec.outcome);
    } else {
      PathToArrivesOrStays(db.rows[id].c.state, Ingest.StateFor(f.verdict.decision));
      forall x: nat | Parked(judged, x) ensures Parked(db, x) {}
    }
  }

  // ---------------------------------------------------------------------------------------------
  // Decisions
  // ---------------------------------------------------------------------------------------------

  /** Nobody parked is forgotten by deciding an item: whoever no other item names is the candidate decided. */
  ghost predicate DecisionForgetsNone(db: Db, item: nat, seen: ReviewItem) {
    forall x: nat | Parked(db, x) && !NamedElsewhere(db.items, item, x) :: seen.subject == CandidateSubject(x)
  }

  lemma DecisionKeepsParkedNamedIff(db: Db, w: World, now: int, item: nat, seen: ReviewItem, input: Review.Input, accept: bool)
    requires Review.Decide(db, w, now, item, seen, input, accept).Success?
    ensures ParkedAreNamed(Review.Decide(db, w, now, item, seen, input, accept).value.db) <==> DecisionForgetsNone(db, item, seen)
  {
    var next := Review.Decide(db, w, now, item, seen, input, accept).value.db;
    Coverage.DecisionAnatomy(db, w, now, item, seen, input, accept);
    DecidedRows(db, w, now, item, seen, input, accept);
    hide Review.Decide;
    forall x: nat
      ensures NamedByQueue(next.items, x) <==> NamedElsewhere(db.items, item, x)
    {
      NamedAfter(db.items, item, next.items[item], x);
    }
  }

  /** A decision takes its own candidate out of waiting and leaves everyone else's state alone. */
  lemma DecidedRows(db: Db, w: World, now: int, item: nat, seen: ReviewItem, input: Review.Input, accept: bool)
    requires Review.Decide(db, w, now, item, seen, input, accept).Success?
    ensures var next := Review.Decide(db, w, now, item, seen, input, accept).value.db;
      forall x: nat :: Parked(next, x) <==> Parked(db, x) && seen.subject != CandidateSubject(x)
  {
    hide Releases.Publish, Ingest.ReleaseFor, Releases.ValidRelease;
  }

  // ---------------------------------------------------------------------------------------------
  // Every delivery
  // ---------------------------------------------------------------------------------------------

  /** What a delivery must not do, said of the tables before it. */
  ghost predicate ForgetsNone(db: Db, e: Delivery) {
    match e
    case Extraction(_, _, _) => true
    case ValidationJob(w, now, id) => ValidationForgetsNone(db, w, now, id)
    case PublicationJob(_, _, _) => true
    case Decision(w, now, item, input, accept) =>
      item < |db.items| && Review.Decide(db, w, now, item, db.items[item], input, accept).Success? ==>
        DecisionForgetsNone(db, item, db.items[item])
    case LateDecision(w, now, item, seen, input, accept) =>
      Review.Decide(db, w, now, item, seen, input, accept).Success? ==> DecisionForgetsNone(db, item, seen)
  }

  lemma StepKeepsParkedNamedIff(db: Db, e: Delivery)
    requires ParkedAreNamed(db)
    ensures ParkedAreNamed(Step(db, e)) <==> ForgetsNone(db, e)
  {
    hide Ingest.Validate, Review.Decide, ValidationForgetsNone, DecisionForgetsNone, Ingest.PublishRelease, NamedByQueue;
    match e
    case Extraction(source, collected, now) =>
      forall x: nat | Parked(Step(db, e), x) ensures Parked(db, x) {}
    case ValidationJob(w, now, id) =>
      if Ingest.Validate(db, w, now, id).Success? { ValidationKeepsParkedNamedIff(db, w, now, id); }
      else { NothingForgotten(db, w, now, id); }
    case PublicationJob(w, now, id) =>
      if Ingest.PublishRelease(db, w, now, id).Success? { PublicationParksNone(db, w, now, id); }
    case Decision(w, now, item, input, accept) =>
      if item < |db.items| && Review.Decide(db, w, now, item, db.items[item], input, accept).Success? {
        DecisionKeepsParkedNamedIff(db, w, now, item, db.items[item], input, accept);
      }
    case LateDecision(w, now, item, seen, input, accept) =>
      if Review.Decide(db, w, now, item, seen, input, accept).Success? {
        DecisionKeepsParkedNamedIff(db, w, now, item, seen, input, accept);
      }
  }

  lemma NothingForgotten(db: Db, w: World, now: int, id: nat)
    requires Ingest.Validate(db, w, now, id).Failure?
    ensures ValidationForgetsNone(db, w, now, id)
  {
  }

  lemma PublicationParksNone(db: Db, w: World, now: int, id: nat)
    requires Ingest.PublishRelease(db, w, now, id).Success?
    ensures var next := Ingest.PublishRelease(db, w, now, id).value.db;
      next.items == db.items && forall x: nat | Parked(next, x) :: Parked(db, x)
  {
    hide Releases.Publish, Ingest.ReleaseFor, Releases.ValidRelease;
  }

  /** A run names whoever it parked for as long as each of its deliveries forgets none, and no longer. */
  lemma {:induction false} RunsNameTheParkedIff(es: seq<Delivery>)
    ensures (forall i | 0 <= i <= |es| :: ParkedAreNamed(Run(es[..i]))) <==> (forall i | 0 <= i < |es| :: ForgetsNone(Run(es[..i]), es[i]))
  {
    hide Step, ParkedAreNamed, ForgetsNone;
    if |es| > 0 {
      var n := |es| - 1;
      var init := es[..n];
      RunsNameTheParkedIff(init);
      assert forall i | 0 <= i <= n :: init[..i] == es[..i];
      assert es[..|es|] == es;
      if ParkedAreNamed(Run(init)) { StepKeepsParkedNamedIff(Run(init), es[n]); }
      assert forall i | 0 <= i < n :: init[i] == es[i];
    } else {
      assert es[..0] == es;
      NobodyIsParked();
    }
  }

  lemma NobodyIsParked()
    ensures ParkedAreNamed(EMPTY)
  {
  }
}
