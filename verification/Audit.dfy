/** The audit trail and the latest-observed flag over every run, stale decisions included. */
module Audit {
  import opened Wrappers
  import Text
  import opened Candidates
  import opened Tables
  import Gates
  import Releases
  import Ingest
  import Review
  import Origins
  import opened Runs

  /** How many audit rows are about an item. */
  function Decisions(audit: seq<AuditRow>, item: nat): nat {
    if |audit| == 0 then 0
    else Decisions(audit[..|audit| - 1], item) + if audit[|audit| - 1].item == item then 1 else 0
  }

  lemma AppendedDecision(audit: seq<AuditRow>, row: AuditRow, item: nat)
    ensures Decisions(audit + [row], item) == Decisions(audit, item) + if row.item == item then 1 else 0
  {
    assert (audit + [row])[..|audit|] == audit;
  }

  /** A resolved item has one audit row and any other has none. */
  ghost predicate AuditInvariant(db: Db) {
    && (forall i | 0 <= i < |db.items| :: Decisions(db.audit, i) == if db.items[i].state == Resolved then 1 else 0)
    && (forall n | n >= |db.items| :: Decisions(db.audit, n) == 0)
  }

  /** The queue may gain open items and rewrite open ones; closed ones are never reworded. */
  ghost predicate Requeues(items: seq<ReviewItem>, items': seq<ReviewItem>) {
    && |items| <= |items'|
    && (forall i | 0 <= i < |items| :: items'[i] == items[i] || (IsOpen(items[i]) && items'[i].state == items[i].state))
    && (forall i | |items| <= i < |items'| :: IsOpen(items'[i]))
  }

  lemma ValidationRequeues(db: Db, w: World, now: int, id: nat)
    requires Ingest.Validate(db, w, now, id).Success?
    ensures var next := Ingest.Validate(db, w, now, id).value.db;
      next.audit == db.audit && Requeues(db.items, next.items)
  {
    hide Ingest.Validate, Ingest.Inspect, Ingest.Reconcile, Ingest.ReconcileConflict, Gates.Judge,
      Ingest.ReviewPayload, Ingest.Priority, Ingest.JudgedRow, Ingest.RouteToReview;
    Ingest.ValidationAnatomy(db, w, now, id);
    var f, rec := Ingest.Inspect(db, w, now, id).value, Ingest.Reconcile(db, w, now, id).value;
    if Ingest.NeedsItem(f, rec) {
      var judged := Ingest.Judged(db, f, rec, id, now);
      RoutingRequeues(judged, id,
        Ingest.DesiredItem(w, judged.rows[id].c, id, f.src, f.verdict, f.a, rec.outcome, now),
        db.rows[id].c.source, f.a, rec.outcome);
    }
  }

  lemma RoutingRequeues(db: Db, id: nat, d: ReviewItem, source: string, a: Ingest.Assessment, outcome: Ingest.ConflictOutcome)
    requires IsOpen(d)
    ensures var next := Ingest.RouteToReview(db, id, d, source, a, outcome).0;
      next.audit == db.audit && Requeues(db.items, next.items)
  {
  }

  lemma DecisionAudits(db: Db, w: World, now: int, item: nat, seen: ReviewItem, input: Review.Input, accept: bool)
    requires AuditInvariant(db) && Review.Decide(db, w, now, item, seen, input, accept).Success?
    ensures var next := Review.Decide(db, w, now, item, seen, input, accept).value.db;
      AuditInvariant(next) && item < |db.items| && db.items[item].state != Resolved && next.items[item].state == Resolved
  {
    hide Review.Decide;
    var next := Review.Decide(db, w, now, item, seen, input, accept).value.db;
    var row := DecisionAppends(db, w, now, item, seen, input, accept);
    forall i: nat ensures Decisions(next.audit, i) == Decisions(db.audit, i) + if i == item then 1 else 0 {
      AppendedDecision(db.audit, row, i);
    }
  }

  /** A decision resolves one open item and appends one audit row about it. */
  lemma DecisionAppends(db: Db, w: World, now: int, item: nat, seen: ReviewItem, input: Review.Input, accept: bool) returns (row: AuditRow)
    requires Review.Decide(db, w, now, item, seen, input, accept).Success?
    ensures var next := Review.Decide(db, w, now, item, seen, input, accept).value.db;
      && next.audit == db.audit + [row] && row.item == item
      && item < |db.items| && IsOpen(db.items[item]) && |next.items| == |db.items| && next.items[item].state == Resolved
      && next.items == db.items[item := next.items[item]]
  {
    hide Releases.Publish, Ingest.ReleaseFor, Releases.ValidRelease;
    var next := Review.Decide(db, w, now, item, seen, input, accept).value.db;
    row := next.audit[|db.audit|];
  }

  lemma StepKeepsAudit(db: Db, e: Delivery)
    requires AuditInvariant(db)
    ensures AuditInvariant(Step(db, e))
  {
    hide Ingest.Validate, Review.Decide;
    match e
    case Extraction(source, collected, now) =>
    case ValidationJob(w, now, id) =>
      if Ingest.Validate(db, w, now, id).Success? { ValidationRequeues(db, w, now, id); }
    case PublicationJob(w, now, id) =>
    case Decision(w, now, item, input, accept) =>
      if item < |db.items| && Review.Decide(db, w, now, item, db.items[item], input, accept).Success? {
        DecisionAudits(db, w, now, item, db.items[item], input, accept);
      }
    case LateDecision(w, now, item, seen, input, accept) =>
      if Review.Decide(db, w, now, item, seen, input, accept).Success? {
        DecisionAudits(db, w, now, item, seen, input, accept);
      }
  }

  /** Over every run, however reviewers race, a resolved item has exactly one audit row, any other none. */
  lemma {:induction false} ResolvedExactlyOnce(es: seq<Delivery>)
    ensures AuditInvariant(Run(es))
  {
    if |es| > 0 {
      ResolvedExactlyOnce(es[..|es| - 1]);
      StepKeepsAudit(Run(es[..|es| - 1]), es[|es| - 1]);
    }
  }

  /** Of two reviewers who loaded the same open item, whoever commits second is refused. */
  lemma SecondReviewerIsRefused(db: Db, w: World, now: int, item: nat, seen: ReviewItem, input: Review.Input, accept: bool,
                                w': World, now': int, seen': ReviewItem, input': Review.Input, accept': bool)
    requires Review.Decide(db, w, now, item, seen, input, accept).Success?
    ensures Review.Decide(Review.Decide(db, w, now, item, seen, input, accept).value.db, w', now', item, seen', input', accept').Failure?
  {
    var next := Review.Decide(db, w, now, item, seen, input, accept).value.db;
    assert next.items[item].state == Resolved;
  }

  // ---------------------------------------------------------------------------------------------
  // What a decision writes down
  // ---------------------------------------------------------------------------------------------

  /** The words an answer leaves on the item and on its conflict. */
  function Answer(accept: bool, reason: string): string {
    (if accept then "accepted" else "rejected") + ": " + Text.Trim(reason)
  }

  /**
   Which decisions go through, from whatever page: by a named person with a reason, on a page and an item both
   still open, naming no closed conflict; accepting a candidate that is published or publishable, or rejecting
   one that is neither published nor superseded.
   */
  lemma DecisionSucceedsIff(db: Db, w: World, now: int, item: nat, seen: ReviewItem, input: Review.Input, accept: bool)
    ensures Review.Decide(db, w, now, item, seen, input, accept).Success? <==>
      (&& !Text.Blank(input.actor) && !Text.Blank(input.reason)
       && seen.state in {Open, InProgress} && item < |db.items| && db.items[item].state in {Open, InProgress}
       && (seen.payload.conflict.Some? ==>
             seen.payload.conflict.value < |db.conflicts| && db.conflicts[seen.payload.conflict.value].open)
       && (seen.subject.CandidateSubject? ==>
             && seen.subject.candidate < |db.rows|
             && var c := db.rows[seen.subject.candidate].c;
                if accept then c.state == Published || Origins.Publishable(w, c) else c.state !in {Published, Superseded}))
  {
    hide Releases.Publish, Ingest.ReleaseFor, Releases.ValidRelease, Origins.Publishable, Text.Blank, CompliancePermitsCollection;
    if item < |db.items| && seen.subject.CandidateSubject? {
      var resolved := db.(items := db.items[item := db.items[item].(
        state := Resolved, resolution := Review.Resolution(input, accept), resolvedBy := input.actor, resolvedAt := now)]);
      Origins.PublishesIff(resolved, w, now, seen.subject.candidate);
    }
  }

  /** Where a subject stands: a candidate's state, and nothing for a conflict. */
  function Standing(db: Db, s: Subject): Option<State> {
    if s.CandidateSubject? && s.candidate < |db.rows| then Some(db.rows[s.candidate].c.state) else None
  }

  /**
   A decision's record: who answered what, why and when; where its candidate stood before and where it stands
   after; and the release an accepted candidate is linked to.
   */
  predicate Records(db: Db, next: Db, row: AuditRow, item: nat, s: Subject, input: Review.Input, accept: bool, now: int) {
    && row.item == item && row.accepted == accept && row.at == now
    && row.actor == input.actor && row.authenticated == input.authenticated && row.reason == Text.Trim(input.reason)
    && row.before == Standing(db, s) && row.after == Standing(next, s)
    && (s.CandidateSubject? ==> s.candidate < |next.rows| && row.after == Some(if accept then Published else Rejected))
    && row.release == if s.CandidateSubject? && accept && s.candidate < |next.rows| then next.rows[s.candidate].c.publishedRelease else None
  }

  lemma DecisionRecords(db: Db, w: World, now: int, item: nat, seen: ReviewItem, input: Review.Input, accept: bool) returns (row: AuditRow)
    requires Review.Decide(db, w, now, item, seen, input, accept).Success?
    ensures var next := Review.Decide(db, w, now, item, seen, input, accept).value.db;
      && next.audit == db.audit + [row]
      && Records(db, next, row, item, seen.subject, input, accept, now)
  {
    hide Ingest.ReleaseFor, Releases.Publish, Releases.ValidRelease, CompliancePermitsCollection;
    var next := Review.Decide(db, w, now, item, seen, input, accept).value.db;
    row := next.audit[|db.audit|];
  }

  /** The item and the conflict its page named are closed in the same words, by the same person, at the same time; no other is touched. */
  lemma DecisionCloses(db: Db, w: World, now: int, item: nat, seen: ReviewItem, input: Review.Input, accept: bool)
    requires Review.Decide(db, w, now, item, seen, input, accept).Success?
    ensures var next := Review.Decide(db, w, now, item, seen, input, accept).value.db;
      && item < |db.items|
      && next.items == db.items[item := db.items[item].(
           state := Resolved, resolution := Answer(accept, input.reason), resolvedBy := input.actor, resolvedAt := now)]
      && (seen.payload.conflict.None? ==> next.conflicts == db.conflicts)
      && (seen.payload.conflict.Some? ==>
            var k := seen.payload.conflict.value;
            && k < |db.conflicts|
            && next.conflicts == db.conflicts[k := db.conflicts[k].(
                 open := false, resolution := Answer(accept, input.reason), resolvedBy := input.actor, resolvedAt := now)])
      && next.observations == db.observations && next.jobs == db.jobs
  {
    hide Ingest.ReleaseFor, Releases.Publish, Releases.ValidRelease, CompliancePermitsCollection;
    assert "accepted" + ": " == "accepted: " && "rejected" + ": " == "rejected: ";
  }

  /** An audit row and the item it is about tell the same story. */
  predicate AgreesWithItem(db: Db, row: AuditRow) {
    && row.item < |db.items|
    && var i := db.items[row.item];
       i.state == Resolved && i.resolvedBy == row.actor && i.resolvedAt == row.at && i.resolution == Answer(row.accepted, row.reason)
  }

  ghost predicate AuditAgrees(db: Db) {
    forall r | 0 <= r < |db.audit| :: AgreesWithItem(db, db.audit[r])
  }

  lemma StepKeepsAgreement(db: Db, e: Delivery)
    requires AuditAgrees(db)
    ensures AuditAgrees(Step(db, e))
  {
    hide Ingest.Validate, Review.Decide, Answer, Ingest.PublishRelease;
    match e
    case Extraction(source, collected, now) =>
    case ValidationJob(w, now, id) =>
      if Ingest.Validate(db, w, now, id).Success? { ValidationRequeues(db, w, now, id); }
      forall r | 0 <= r < |Step(db, e).audit| ensures AgreesWithItem(Step(db, e), Step(db, e).audit[r]) { assert AgreesWithItem(db, db.audit[r]); }
    case PublicationJob(w, now, id) =>
      if Ingest.PublishRelease(db, w, now, id).Success? { PublicationLeavesQueue(db, w, now, id); }
      forall r | 0 <= r < |Step(db, e).audit| ensures AgreesWithItem(Step(db, e), Step(db, e).audit[r]) { assert AgreesWithItem(db, db.audit[r]); }
    case Decision(w, now, item, input, accept) =>
      if item < |db.items| && Review.Decide(db, w, now, item, db.items[item], input, accept).Success? {
        DecisionKeepsAgreement(db, w, now, item, db.items[item], input, accept);
      }
    case LateDecision(w, now, item, seen, input, accept) =>
      if Review.Decide(db, w, now, item, seen, input, accept).Success? {
        DecisionKeepsAgreement(db, w, now, item, seen, input, accept);
      }
  }

  lemma PublicationLeavesQueue(db: Db, w: World, now: int, id: nat)
    requires Ingest.PublishRelease(db, w, now, id).Success?
    ensures var next := Ingest.PublishRelease(db, w, now, id).value.db; next.items == db.items && next.audit == db.audit
  {
  }

  lemma DecisionKeepsAgreement(db: Db, w: World, now: int, item: nat, seen: ReviewItem, input: Review.Input, accept: bool)
    requires AuditAgrees(db) && Review.Decide(db, w, now, item, seen, input, accept).Success?
    ensures AuditAgrees(Review.Decide(db, w, now, item, seen, input, accept).value.db)
  {
    hide Review.Decide;
    var next := Review.Decide(db, w, now, item, seen, input, accept).value.db;
    var _ := DecisionAppends(db, w, now, item, seen, input, accept);
    var row := DecisionRecords(db, w, now, item, seen, input, accept);
    DecisionCloses(db, w, now, item, seen, input, accept);
    TrimmedOnce(input.reason);
    forall r | 0 <= r < |next.audit| ensures AgreesWithItem(next, next.audit[r]) {
      if r < |db.audit| { assert AgreesWithItem(db, db.audit[r]); }
    }
  }

  lemma TrimmedOnce(s: string)
    ensures Text.Trim(Text.Trim(s)) == Text.Trim(s)
  {
  }

  /** Over every run, every audit row agrees with the item it is about: same person, same time, same words. */
  lemma {:induction false} AuditTellsTheQueue(es: seq<Delivery>)
    ensures AuditAgrees(Run(es))
  {
    hide Step, AgreesWithItem;
    if |es| > 0 {
      AuditTellsTheQueue(es[..|es| - 1]);
      StepKeepsAgreement(Run(es[..|es| - 1]), es[|es| - 1]);
    }
  }

  // ---------------------------------------------------------------------------------------------
  // The latest flag
  // ---------------------------------------------------------------------------------------------

  lemma StepKeepsLatest(db: Db, e: Delivery)
    requires Releases.LatestInvariant(db.catalog)
    ensures Releases.LatestInvariant(Step(db, e).catalog)
  {
    hide Ingest.Validate, Releases.LatestInvariant, Releases.Publish;
    match e
    case Extraction(source, collected, now) =>
    case ValidationJob(w, now, id) =>
      if Ingest.Validate(db, w, now, id).Success? { ValidationOnlyTouches(db, w, now, id); }
    case PublicationJob(w, now, id) => PublicationKeepsLatest(db, w, now, id);
    case Decision(w, now, item, input, accept) =>
      if item < |db.items| { DecisionKeepsLatest(db, w, now, item, db.items[item], input, accept); }
    case LateDecision(w, now, item, seen, input, accept) =>
      DecisionKeepsLatest(db, w, now, item, seen, input, accept);
  }

  lemma ValidationOnlyTouches(db: Db, w: World, now: int, id: nat)
    requires Releases.LatestInvariant(db.catalog) && Ingest.Validate(db, w, now, id).Success?
    ensures Releases.LatestInvariant(Ingest.Validate(db, w, now, id).value.db.catalog)
  {
    hide Ingest.Validate, Ingest.Inspect, Ingest.Reconcile, Ingest.ReconcileConflict, Gates.Judge,
      Ingest.DesiredItem, Ingest.JudgedRow, Releases.LatestInvariant, Ingest.RouteToReview;
    Ingest.ValidationAnatomy(db, w, now, id);
    var f, rec := Ingest.Inspect(db, w, now, id).value, Ingest.Reconcile(db, w, now, id).value;
    if Ingest.NeedsItem(f, rec) {
      var judged := Ingest.Judged(db, f, rec, id, now);
      Ingest.RoutingOnlyMovesQueue(judged, id,
        Ingest.DesiredItem(w, judged.rows[id].c, id, f.src, f.verdict, f.a, rec.outcome, now), db.rows[id].c.source, f.a, rec.outcome);
    }
    if f.context.duplicate.Some? { Releases.TouchKeepsLatest(db.catalog, f.context.duplicate.value, now); }
  }

  lemma PublicationKeepsLatest(db: Db, w: World, now: int, id: nat)
    requires Releases.LatestInvariant(db.catalog)
    ensures Ingest.PublishRelease(db, w, now, id).Success? ==>
      Releases.LatestInvariant(Ingest.PublishRelease(db, w, now, id).value.db.catalog)
  {
    hide Releases.LatestInvariant, Releases.Publish;
    if id < |db.rows| && db.rows[id].c.source in w.sources {
      var c := db.rows[id].c;
      Releases.PublishKeepsLatest(db.catalog, Ingest.ReleaseFor(c, id, w.sources[c.source], now), c.product);
    }
  }

  lemma DecisionKeepsLatest(db: Db, w: World, now: int, item: nat, seen: ReviewItem, input: Review.Input, accept: bool)
    requires Releases.LatestInvariant(db.catalog)
    ensures Review.Decide(db, w, now, item, seen, input, accept).Success? ==>
      Releases.LatestInvariant(Review.Decide(db, w, now, item, seen, input, accept).value.db.catalog)
  {
    hide Releases.LatestInvariant, Ingest.PublishRelease;
    if Review.Decide(db, w, now, item, seen, input, accept).Success? && seen.subject.CandidateSubject? {
      var resolved := db.(items := db.items[item := db.items[item].(
        state := Resolved, resolution := Review.Resolution(input, accept), resolvedBy := input.actor, resolvedAt := now)]);
      PublicationKeepsLatest(resolved, w, now, seen.subject.candidate);
    }
  }

  /**
   In every reachable state the latest answer for a product, and for a named channel of it, is a
   comparison maximum of the eligible releases published there, and each product and channel holds at
   most one flag.
   */
  lemma {:induction false} LatestOverRuns(es: seq<Delivery>)
    ensures Releases.LatestInvariant(Run(es).catalog)
  {
    hide Releases.LatestInvariant;
    if |es| > 0 {
      LatestOverRuns(es[..|es| - 1]);
      StepKeepsLatest(Run(es[..|es| - 1]), es[|es| - 1]);
    } else {
      EmptyCatalogIsSound();
    }
  }

  lemma EmptyCatalogIsSound()
    ensures Releases.LatestInvariant(EMPTY.catalog)
  {
  }
}
