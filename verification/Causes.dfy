/** What stands behind a release: a validation that passed all ten gates, or a human's acceptance. */
module Causes {
  import opened Wrappers
  import opened Candidates
  import opened Tables
  import Gates
  import Releases
  import Ingest
  import Review
  import opened Runs

  /** The delivery validates candidate x and records ten passes, in order, on its row. */
  ghost predicate Passes(db: Db, e: Delivery, x: nat) {
    && e.ValidationJob? && e.id == x
    && var r := Ingest.Validate(db, e.w, e.now, x);
       r.Success? && r.value.decision == Gates.Passed
         && x < |r.value.db.rows| && Gates.AllTenPassed(r.value.db.rows[x].verdict)
  }

  /** The delivery is a human accepting an item whose page named candidate x. */
  ghost predicate Accepts(db: Db, e: Delivery, x: nat) {
    || (e.Decision? && e.accept && e.item < |db.items| && db.items[e.item].subject == CandidateSubject(x)
         && Review.Decide(db, e.w, e.now, e.item, db.items[e.item], e.input, true).Success?)
    || (e.LateDecision? && e.accept && e.seen.subject == CandidateSubject(x)
         && Review.Decide(db, e.w, e.now, e.item, e.seen, e.input, true).Success?)
  }

  ghost predicate Cleared(es: seq<Delivery>, x: nat) {
    exists k | 0 <= k < |es| :: Passes(Run(es[..k]), es[k], x)
  }

  ghost predicate Accepted(es: seq<Delivery>, x: nat) {
    exists k | 0 <= k < |es| :: Accepts(Run(es[..k]), es[k], x)
  }

  lemma LongerRunsKeepCauses(es: seq<Delivery>, e: Delivery, x: nat)
    ensures Cleared(es, x) ==> Cleared(es + [e], x)
    ensures Accepted(es, x) ==> Accepted(es + [e], x)
  {
    hide Run, Passes, Accepts;
    if Cleared(es, x) {
      var k :| 0 <= k < |es| && Passes(Run(es[..k]), es[k], x);
      assert (es + [e])[..k] == es[..k] && (es + [e])[k] == es[k];
    }
    if Accepted(es, x) {
      var k :| 0 <= k < |es| && Accepts(Run(es[..k]), es[k], x);
      assert (es + [e])[..k] == es[..k] && (es + [e])[k] == es[k];
    }
  }

  /** Releases only accumulate, and what they cite never changes. */
  ghost predicate Extends(cat: Releases.Catalog, next: Releases.Catalog) {
    && |cat.releases| <= |next.releases|
    && forall r | 0 <= r < |cat.releases| :: next.releases[r].candidate == cat.releases[r].candidate
  }

  ghost predicate AddsOnly(db: Db, next: Db, x: nat) {
    && Extends(db.catalog, next.catalog)
    && forall r | |db.catalog.releases| <= r < |next.catalog.releases| :: next.catalog.releases[r].candidate == x
  }

  lemma PublicationAdds(db: Db, w: World, now: int, id: nat)
    requires Ingest.PublishRelease(db, w, now, id).Success?
    ensures var next := Ingest.PublishRelease(db, w, now, id).value.db;
      next.jobs == db.jobs && AddsOnly(db, next, id)
  {
  }

  lemma DecisionAdds(db: Db, w: World, now: int, item: nat, seen: ReviewItem, input: Review.Input, accept: bool)
    requires Review.Decide(db, w, now, item, seen, input, accept).Success?
    ensures var next := Review.Decide(db, w, now, item, seen, input, accept).value.db;
      && next.jobs == db.jobs && Extends(db.catalog, next.catalog)
      && (|next.catalog.releases| > |db.catalog.releases| ==>
            accept && seen.subject.CandidateSubject? && AddsOnly(db, next, seen.subject.candidate))
  {
    hide Ingest.PublishRelease;
    if seen.subject.CandidateSubject? && accept {
      var resolved := db.(items := db.items[item := db.items[item].(
        state := Resolved, resolution := Review.Resolution(input, accept), resolvedBy := input.actor, resolvedAt := now)]);
      PublicationAdds(resolved, w, now, seen.subject.candidate);
    }
  }

  lemma ValidationAdds(db: Db, w: World, now: int, id: nat)
    requires Ingest.Validate(db, w, now, id).Success?
    ensures var v := Ingest.Validate(db, w, now, id).value;
      && v.db.jobs == (if v.decision == Gates.Passed then db.jobs + {id} else db.jobs)
      && |v.db.catalog.releases| == |db.catalog.releases| && Extends(db.catalog, v.db.catalog)
  {
    hide Ingest.Validate, Ingest.Inspect, Ingest.Reconcile, Ingest.ReconcileConflict, Gates.Judge,
      Ingest.RouteToReview, Ingest.DesiredItem, Ingest.JudgedRow;
    Ingest.ValidationAnatomy(db, w, now, id);
    var f, rec := Ingest.Inspect(db, w, now, id).value, Ingest.Reconcile(db, w, now, id).value;
    if Ingest.NeedsItem(f, rec) {
      var judged := Ingest.Judged(db, f, rec, id, now);
      Ingest.RoutingOnlyMovesQueue(judged, id,
        Ingest.DesiredItem(w, judged.rows[id].c, id, f.src, f.verdict, f.a, rec.outcome, now),
        db.rows[id].c.source, f.a, rec.outcome);
    }
  }

  /** What one delivery can add: jobs only by a passing validation, releases only by a job or an acceptance. */
  lemma WhatAStepAdds(db: Db, e: Delivery)
    ensures Extends(db.catalog, Step(db, e).catalog)
    ensures forall x | x in Step(db, e).jobs :: x in db.jobs || Passes(db, e, x)
    ensures forall r | |db.catalog.releases| <= r < |Step(db, e).catalog.releases| ::
      var x := Step(db, e).catalog.releases[r].candidate; x in db.jobs || Accepts(db, e, x)
  {
    hide Ingest.Validate, Ingest.PublishRelease, Review.Decide;
    match e
    case Extraction(source, collected, now) =>
    case ValidationJob(w, now, id) =>
      if Ingest.Validate(db, w, now, id).Success? {
        ValidationAdds(db, w, now, id);
        if Ingest.Validate(db, w, now, id).value.decision == Gates.Passed { PassingRecordsTen(db, w, now, id); }
      }
    case PublicationJob(w, now, id) =>
      if Ingest.PublishRelease(db, w, now, id).Success? { PublicationAdds(db, w, now, id); }
    case Decision(w, now, item, input, accept) =>
      if item < |db.items| && Review.Decide(db, w, now, item, db.items[item], input, accept).Success? {
        DecisionAdds(db, w, now, item, db.items[item], input, accept);
      }
    case LateDecision(w, now, item, seen, input, accept) =>
      if Review.Decide(db, w, now, item, seen, input, accept).Success? {
        DecisionAdds(db, w, now, item, seen, input, accept);
      }
  }

  /** A passing validation records ten passes on the row it leaves. */
  lemma PassingRecordsTen(db: Db, w: World, now: int, id: nat)
    requires Ingest.Validate(db, w, now, id).Success? && Ingest.Validate(db, w, now, id).value.decision == Gates.Passed
    ensures var v := Ingest.Validate(db, w, now, id).value;
      id < |v.db.rows| && Gates.AllTenPassed(v.db.rows[id].verdict)
  {
    hide Ingest.Validate, Ingest.Inspect, Ingest.Reconcile, Ingest.ReconcileConflict, Gates.Judge, Gates.AllTenPassed,
      Ingest.DesiredItem, Ingest.RouteToReview, PathTo, Ingest.BuildContext, Ingest.Assess, Ingest.ResolveProduct;
    Ingest.ValidationAnatomy(db, w, now, id);
    var f, rec := Ingest.Inspect(db, w, now, id).value, Ingest.Reconcile(db, w, now, id).value;
    Gates.VerdictMeaning(db.rows[id].c, f.context);
    if Ingest.NeedsItem(f, rec) {
      var judged := Ingest.Judged(db, f, rec, id, now);
      Ingest.RoutingOnlyMovesQueue(judged, id,
        Ingest.DesiredItem(w, judged.rows[id].c, id, f.src, f.verdict, f.a, rec.outcome, now), db.rows[id].c.source, f.a, rec.outcome);
    }
  }

  /**
   Over every run with at-least-once delivery, a publication job exists only for a candidate some
   earlier validation passed through all ten gates, and a release only for such a candidate or for one
   a human accepted by name.
   */
  lemma {:induction false} EveryReleaseHasACause(es: seq<Delivery>)
    ensures forall x | x in Run(es).jobs :: Cleared(es, x)
    ensures forall r | 0 <= r < |Run(es).catalog.releases| ::
      Cleared(es, Run(es).catalog.releases[r].candidate) || Accepted(es, Run(es).catalog.releases[r].candidate)
  {
    hide Step, Passes, Accepts, Cleared, Accepted;
    if |es| > 0 {
      var n := |es| - 1;
      var before, e := es[..n], es[n];
      assert es == before + [e] && Run(es) == Step(Run(before), e);
      EveryReleaseHasACause(before);
      var db, next := Run(before), Run(es);
      WhatAStepAdds(db, e);
      forall x | x in next.jobs ensures Cleared(es, x) {
        LongerRunsKeepCauses(before, e, x);
        if Passes(db, e, x) { CausedNow(es, x); }
      }
      forall r | 0 <= r < |next.catalog.releases|
        ensures Cleared(es, next.catalog.releases[r].candidate) || Accepted(es, next.catalog.releases[r].candidate)
      {
        var x := next.catalog.releases[r].candidate;
        LongerRunsKeepCauses(before, e, x);
        if Accepts(db, e, x) { CausedNow(es, x); }
      }
    }
  }

  lemma CausedNow(es: seq<Delivery>, x: nat)
    requires |es| > 0
    ensures Passes(Run(es[..|es| - 1]), es[|es| - 1], x) ==> Cleared(es, x)
    ensures Accepts(Run(es[..|es| - 1]), es[|es| - 1], x) ==> Accepted(es, x)
  {
    hide Run, Passes, Accepts;
  }
}
