/** The events of a validation tell exactly what it changed: a state reached, a conflict opened, a conflict closed. */
module Announcements {
  import opened Wrappers
  import opened Candidates
  import opened Tables
  import Gates
  import Conflicts
  import Ingest
  import Disputes
  import opened Verdicts
  import Filed

  /** The candidate comes to be in a state it was not in. */
  predicate Becomes(db: Db, next: Db, x: nat, s: State) {
    x < |db.rows| && x < |next.rows| && db.rows[x].c.state != s && next.rows[x].c.state == s
  }

  /** A conflict that was open no longer is. */
  predicate Closes(db: Db, next: Db, k: nat, product: string, channel: string) {
    && k < |db.conflicts| && k < |next.conflicts| && db.conflicts[k].open && !next.conflicts[k].open
    && next.conflicts[k].product == product && next.conflicts[k].channel == channel
  }

  /** What the walk of the validated candidate announces. */
  lemma WalkAnnounces(db: Db, f: Ingest.Findings, id: nat, e: Event)
    requires id < |db.rows|
    ensures var from, to := db.rows[id].c.state, Ingest.JudgedRow(db.rows[id], f).c.state;
      e in Ingest.Announced(db, f, id) <==>
        || (e == CandidateValidated(id) && from != Validated && to == Validated)
        || (e == HumanReviewRequested(id) && from != HumanReviewRequired && to == HumanReviewRequired)
        || (e == CandidateRejected(id) && from != Rejected && to == Rejected)
  {
    hide PathTo;
    PathToArrivesOrStays(db.rows[id].c.state, Ingest.StateFor(f.verdict.decision));
  }

  /** What a release from the queue announces, and whom it moves. */
  lemma RoutingAnnounces(db: Db, id: nat, d: ReviewItem, source: string, a: Ingest.Assessment, outcome: Ingest.ConflictOutcome, e: Event)
    ensures var (next, _, events) := Ingest.RouteToReview(db, id, d, source, a, outcome);
      && |next.rows| == |db.rows|
      && (e in events <==> e.CandidateRejected? && Becomes(db, next, e.candidate, Rejected))
      && (forall x | 0 <= x < |db.rows| :: next.rows[x].c.state == db.rows[x].c.state || Becomes(db, next, x, Rejected))
      && (id < |db.rows| ==> next.rows[id].c.state == db.rows[id].c.state)
      && |next.conflicts| == |db.conflicts|
      && (forall k | 0 <= k < |db.conflicts| :: next.conflicts[k] == db.conflicts[k].(reviewItem := next.conflicts[k].reviewItem))
  {
    hide Ingest.OpenItemFor;
  }

  /** What reconciliation announces. */
  lemma ReconcilingAnnounces(os: seq<Conflicts.Observation>, ks: seq<Conflicts.SourceConflict>, a: Ingest.Assessment, now: int, e: Event)
    requires Ingest.ReconcileConflict(os, ks, a, now).Success?
    ensures var rec := Ingest.ReconcileConflict(os, ks, a, now).value;
      && |ks| <= |rec.conflicts| <= |ks| + 1
      && (e.SourceConflictDetected? ==> (e in rec.events <==> e.conflict == |ks| < |rec.conflicts|))
      && (e.SourceConflictResolved? ==> (e in rec.events <==>
            && (exists k: nat | k < |ks| :: ks[k].open && !rec.conflicts[k].open && ks[k].product == e.product && ks[k].channel == e.channel)
            && a.Assessed? && e.outranked == (|a.verdict.outrankedVersions| > 0)))
      && (a.Skipped? ==> rec.conflicts == ks)
      && (e in rec.events ==> e.SourceConflictDetected? || e.SourceConflictResolved?)
      && (forall k: nat | k < |ks| :: rec.conflicts[k].product == ks[k].product && rec.conflicts[k].channel == ks[k].channel)
  {
    hide Conflicts.ValidConflict, RecordObservation, Conflicts.Storable;
  }

  /** A conflict closed for this product and channel, by authority or by agreement as the claims stood. */
  ghost predicate ClosedAs(e: Event, db: Db, next: Db, w: World, c: Candidate, src: Source)
    requires e.SourceConflictResolved?
  {
    (exists k: nat :: Closes(db, next, k, e.product, e.channel)) && e.outranked == Disputes.Outranks(db, w, c, src)
  }

  /** What an event says is what became of the tables. */
  ghost predicate True(e: Event, db: Db, next: Db, w: World, id: nat, c: Candidate, src: Source) {
    match e
    case CandidateValidated(x) => x == id && Becomes(db, next, x, Validated)
    case HumanReviewRequested(x) => x == id && Becomes(db, next, x, HumanReviewRequired)
    case CandidateRejected(x) => Becomes(db, next, x, Rejected)
    case SourceConflictDetected(k) => k == |db.conflicts| < |next.conflicts|
    case SourceConflictResolved(_, _, _) => ClosedAs(e, db, next, w, c, src)
  }

  /** A validation announces an event exactly when it is true of what it changed; and nobody but its own candidate changes state except to be rejected. */
  lemma EventsTellChanges(db: Db, w: World, now: int, id: nat, e: Event)
    requires Ingest.Validate(db, w, now, id).Success?
    ensures id < |db.rows| && db.rows[id].c.source in w.sources
    ensures var v, c := Ingest.Validate(db, w, now, id).value, db.rows[id].c;
      && (e in v.events <==> True(e, db, v.db, w, id, c, w.sources[c.source]))
      && (forall x | 0 <= x < |db.rows| && x != id ::
            x < |v.db.rows| && (v.db.rows[x].c.state == db.rows[x].c.state || Becomes(db, v.db, x, Rejected)))
  {
    hide Ingest.Validate, Ingest.Inspect, Ingest.ReconcileConflict, Gates.Judge, Ingest.RouteToReview, Ingest.BuildContext, Ingest.Assess,
      Ingest.ResolveProduct, PathTo, Ingest.DesiredItem, Ingest.JudgedRow, Ingest.Announced, Disputes.Outranks, ProductOf, Ingest.SettleProduct;
    Ingest.ValidationAnatomy(db, w, now, id);
    var v, f, rec := Ingest.Validate(db, w, now, id).value, Ingest.Inspect(db, w, now, id).value, Ingest.Reconcile(db, w, now, id).value;
    var judged := Ingest.Judged(db, f, rec, id, now);
    var c := db.rows[id].c;
    Filed.SettledIs(w, c, f.src);
    WalkAnnounces(db, f, id, e);
    ReconcilingAnnounces(db.observations, db.conflicts, f.a, now, e);
    if f.a.Assessed? {
      Filed.AssessedHasProduct(db.observations, w, c, id, f.src, ProductOf(w, c, f.src.vendor), now);
      Disputes.OutrankMeans(db, w, c, id, f.src, now);
    }
    if Ingest.NeedsItem(f, rec) {
      RoutingAnnounces(judged, id, Ingest.DesiredItem(w, judged.rows[id].c, id, f.src, f.verdict, f.a, rec.outcome, now),
        c.source, f.a, rec.outcome, e);
    }
    assert forall x | 0 <= x < |db.rows| && x != id :: judged.rows[x] == db.rows[x];
    if e.SourceConflictResolved? {
      forall k: nat | k < |db.conflicts|
        ensures Closes(db, v.db, k, e.product, e.channel) <==>
          db.conflicts[k].open && !rec.conflicts[k].open && db.conflicts[k].product == e.product && db.conflicts[k].channel == e.channel {}
    }
  }
}
