/**
 Where published facts come from: state histories, the one-to-one tie between published candidates and
 releases, what lies behind every release, the audit trail, and the latest flag, over every run,
 decisions made on stale pages included.
 */
module Provenance {
  import opened Wrappers
  import opened Candidates
  import opened Tables
  import Gates
  import Releases
  import Ingest
  import Review
  import opened Runs

  // ---------------------------------------------------------------------------------------------
  // Rows and releases
  // ---------------------------------------------------------------------------------------------

  /** The recorded states start at extracted, follow declared edges, and end where the row is now. */
  predicate HistorySound(r: Row) {
    && |r.trail| > 0 && r.trail[0] == Extracted && r.trail[|r.trail| - 1] == r.c.state
    && forall i | 0 < i < |r.trail| :: CanTransition(r.trail[i - 1], r.trail[i])
  }

  /** A published row names a release that cites it. */
  predicate NamesRelease(db: Db, x: nat)
    requires x < |db.rows|
  {
    && db.rows[x].c.publishedRelease.Some?
    && db.rows[x].c.publishedRelease.value < |db.catalog.releases|
    && db.catalog.releases[db.rows[x].c.publishedRelease.value].candidate == x
  }

  /** A release cites a published row that names it. */
  predicate NamedBack(db: Db, r: nat)
    requires r < |db.catalog.releases|
  {
    var x := db.catalog.releases[r].candidate;
    x < |db.rows| && db.rows[x].c.state == Published && db.rows[x].c.publishedRelease == Some(r)
  }

  ghost predicate RowsInvariant(db: Db) {
    && (forall x | 0 <= x < |db.rows| :: HistorySound(db.rows[x]))
    && (forall x | 0 <= x < |db.rows| && db.rows[x].c.state == Published :: NamesRelease(db, x))
    && (forall r | 0 <= r < |db.catalog.releases| :: NamedBack(db, r))
    && (forall x | 0 <= x < |db.rows| && db.rows[x].c.state == Validated :: Gates.AllTenPassed(db.rows[x].verdict))
  }

  /** Extending a sound history by a walk from its end. */
  lemma {:induction false} WalkedStaysSound(r: Row, steps: seq<State>)
    requires HistorySound(r) && IsWalk(r.c.state, steps)
    ensures HistorySound(Walked(r, steps))
    decreases |steps|
  {
    if |steps| > 0 {
      var one := Walked(r, [steps[0]]);
      WalkedStaysSound(one, steps[1..]);
      assert one.trail + steps[1..] == r.trail + steps;
      assert Walked(one, steps[1..]) == Walked(r, steps);
    }
  }

  /** Replacing one row by a sound one that is not newly published keeps the invariant. */
  lemma ReplacingRowKeepsRows(db: Db, x: nat, row: Row, catalog: Releases.Tables)
    requires RowsInvariant(db) && x < |db.rows| && HistorySound(row)
    requires |catalog.releases| == |db.catalog.releases|
    requires forall r | 0 <= r < |catalog.releases| :: catalog.releases[r].candidate == db.catalog.releases[r].candidate
    requires (row.c.state == Published) == (db.rows[x].c.state == Published)
    requires row.c.publishedRelease == db.rows[x].c.publishedRelease
    requires row.c.state == Validated ==> Gates.AllTenPassed(row.verdict)
    ensures RowsInvariant(db.(rows := db.rows[x := row], catalog := catalog))
  {
    var next := db.(rows := db.rows[x := row], catalog := catalog);
    forall r | 0 <= r < |next.catalog.releases| ensures NamedBack(next, r) { assert NamedBack(db, r); }
    forall y | 0 <= y < |next.rows| && next.rows[y].c.state == Published ensures NamesRelease(next, y) {
      assert NamesRelease(db, y);
    }
  }

  lemma JudgedRowIsSound(db: Db, w: World, now: int, id: nat)
    requires RowsInvariant(db) && Ingest.Inspect(db, w, now, id).Success?
    ensures var f := Ingest.Inspect(db, w, now, id).value;
      var r, r' := db.rows[id], Ingest.JudgedRow(db.rows[id], f);
      && HistorySound(r') && r'.c.publishedRelease == r.c.publishedRelease
      && (r'.c.state == Published <==> r.c.state == Published)
      && (r'.c.state == Validated ==> Gates.AllTenPassed(r'.verdict))
  {
    hide Gates.Judge;
    var f := Ingest.Inspect(db, w, now, id).value;
    var r := db.rows[id];
    var to := Ingest.StateFor(f.verdict.decision);
    PathToArrivesOrStays(r.c.state, to);
    Gates.VerdictMeaning(r.c, f.context);
    var settled := r.(c := Ingest.SettleProduct(r.c, f.found), verdict := f.verdict.results);
    WalkedStaysSound(settled, PathTo(r.c.state, to));
  }

  lemma ReleasingKeepsRows(db: Db, s: Option<Subject>)
    requires RowsInvariant(db)
    ensures RowsInvariant(Ingest.ReleaseSuperseded(db, s).0)
  {
    if s.Some? && s.value.CandidateSubject? && s.value.candidate < |db.rows|
      && db.rows[s.value.candidate].c.state == HumanReviewRequired {
      var x := s.value.candidate;
      WalkedStaysSound(db.rows[x], [Rejected]);
      ReplacingRowKeepsRows(db, x, Walked(db.rows[x], [Rejected]), db.catalog);
    }
  }

  /** Nothing but rows and releases matters to the invariant. */
  lemma SameRowsKeepRows(db: Db, next: Db)
    requires RowsInvariant(db) && next.rows == db.rows && next.catalog == db.catalog
    ensures RowsInvariant(next)
  {
    forall r | 0 <= r < |next.catalog.releases| ensures NamedBack(next, r) { assert NamedBack(db, r); }
    forall y | 0 <= y < |next.rows| && next.rows[y].c.state == Published ensures NamesRelease(next, y) {
      assert NamesRelease(db, y);
    }
  }

  lemma RoutingKeepsRows(db: Db, id: nat, d: ReviewItem, source: string, a: Ingest.Assessment, outcome: Ingest.ConflictOutcome)
    requires RowsInvariant(db)
    ensures RowsInvariant(Ingest.RouteToReview(db, id, d, source, a, outcome).0)
  {
    hide RowsInvariant;
    var existing := Ingest.OpenItemFor(db.items, outcome, d.subject);
    if existing.None? {
      SameRowsKeepRows(db, Ingest.RouteToReview(db, id, d, source, a, outcome).0);
    } else {
      var (i, moves) := Ingest.ChooseItem(db.items, existing.value, d, id, source, a);
      var stored := db.items[i];
      var target := if moves then stored.(kind := d.kind, subject := d.subject) else stored;
      var routed := db.(items := db.items[i := Ingest.Redescribed(target, d)],
                        conflicts := Ingest.LinkReviewItem(db.conflicts, outcome, i));
      SameRowsKeepRows(db, routed);
      ReleasingKeepsRows(routed, if moves then Some(stored.subject) else None);
    }
  }

  lemma ValidationKeepsRows(db: Db, w: World, now: int, id: nat)
    requires RowsInvariant(db) && Ingest.Validate(db, w, now, id).Success?
    ensures RowsInvariant(Ingest.Validate(db, w, now, id).value.db)
  {
    hide Ingest.Validate, Ingest.Inspect, Ingest.Reconcile, Ingest.ReconcileConflict, Gates.Judge,
      Ingest.RouteToReview, Ingest.DesiredItem, Ingest.JudgedRow, RowsInvariant;
    Ingest.ValidationAnatomy(db, w, now, id);
    var f, rec := Ingest.Inspect(db, w, now, id).value, Ingest.Reconcile(db, w, now, id).value;
    var judged := Ingest.Judged(db, f, rec, id, now);
    JudgedRowIsSound(db, w, now, id);
    ReplacingRowKeepsRows(db, id, Ingest.JudgedRow(db.rows[id], f), judged.catalog);
    SameRowsKeepRows(db.(rows := judged.rows, catalog := judged.catalog), judged);
    if Ingest.NeedsItem(f, rec) {
      RoutingKeepsRows(judged, id, Ingest.DesiredItem(w, judged.rows[id].c, id, f.src, f.verdict, f.a, rec.outcome, now),
        db.rows[id].c.source, f.a, rec.outcome);
    }
  }

  lemma PublicationKeepsRows(db: Db, w: World, now: int, id: nat)
    requires RowsInvariant(db) && Ingest.PublishRelease(db, w, now, id).Success?
    ensures RowsInvariant(Ingest.PublishRelease(db, w, now, id).value.db)
  {
    var p := Ingest.PublishRelease(db, w, now, id).value;
    if p.published {
      var n := |db.catalog.releases|;
      WalkedStaysSound(db.rows[id], [Published]);
      assert forall r | 0 <= r < n :: p.db.catalog.releases[r] == db.catalog.releases[r];
      forall r | 0 <= r < |p.db.catalog.releases| ensures NamedBack(p.db, r) {
        if r < n { assert NamedBack(db, r); }
      }
      forall y | 0 <= y < |p.db.rows| && p.db.rows[y].c.state == Published ensures NamesRelease(p.db, y) {
        if y != id { assert NamesRelease(db, y); }
      }
    }
  }

  lemma DecisionKeepsRows(db: Db, w: World, now: int, item: nat, seen: ReviewItem, input: Review.Input, accept: bool)
    requires RowsInvariant(db) && Review.Decide(db, w, now, item, seen, input, accept).Success?
    ensures RowsInvariant(Review.Decide(db, w, now, item, seen, input, accept).value.db)
  {
    var next := Review.Decide(db, w, now, item, seen, input, accept).value.db;
    var resolved := db.(items := db.items[item := db.items[item].(
      state := Resolved, resolution := Review.Resolution(input, accept), resolvedBy := input.actor, resolvedAt := now)]);
    SameRowsKeepRows(db, resolved);
    if seen.subject.CandidateSubject? {
      var x := seen.subject.candidate;
      var applied := Review.DecideCandidate(resolved, w, now, x, accept).value.db;
      if accept {
        PublicationKeepsRows(resolved, w, now, x);
      } else {
        var steps := if db.rows[x].c.state == Rejected then [] else [Rejected];
        WalkedStaysSound(db.rows[x], steps);
        ReplacingRowKeepsRows(resolved, x, Walked(db.rows[x], steps), db.catalog);
      }
      SameRowsKeepRows(applied, next);
    } else {
      SameRowsKeepRows(resolved, next);
    }
  }

  lemma ExtractionKeepsRows(db: Db, source: string, collected: Candidate, now: int)
    requires RowsInvariant(db) && Ingest.Extract(db, source, collected, now).Success?
    ensures RowsInvariant(Ingest.Extract(db, source, collected, now).value)
  {
    var next := Ingest.Extract(db, source, collected, now).value;
    forall r | 0 <= r < |next.catalog.releases| ensures NamedBack(next, r) { assert NamedBack(db, r); }
    forall y | 0 <= y < |next.rows| && next.rows[y].c.state == Published ensures NamesRelease(next, y) {
      assert NamesRelease(db, y);
    }
  }

  lemma StepKeepsRows(db: Db, e: Delivery)
    requires RowsInvariant(db)
    ensures RowsInvariant(Step(db, e))
  {
    hide Ingest.Extract, Ingest.Validate, Ingest.PublishRelease, Review.Decide, RowsInvariant;
    match e
    case Extraction(source, collected, now) =>
      if Ingest.Extract(db, source, collected, now).Success? { ExtractionKeepsRows(db, source, collected, now); }
    case ValidationJob(w, now, id) =>
      if Ingest.Validate(db, w, now, id).Success? { ValidationKeepsRows(db, w, now, id); }
    case PublicationJob(w, now, id) =>
      if Ingest.PublishRelease(db, w, now, id).Success? { PublicationKeepsRows(db, w, now, id); }
    case Decision(w, now, item, input, accept) =>
      if item < |db.items| && Review.Decide(db, w, now, item, db.items[item], input, accept).Success? {
        DecisionKeepsRows(db, w, now, item, db.items[item], input, accept);
      }
    case LateDecision(w, now, item, seen, input, accept) =>
      if Review.Decide(db, w, now, item, seen, input, accept).Success? {
        DecisionKeepsRows(db, w, now, item, seen, input, accept);
      }
  }

  lemma {:induction false} RunsKeepRows(es: seq<Delivery>)
    ensures RowsInvariant(Run(es))
  {
    if |es| > 0 {
      RunsKeepRows(es[..|es| - 1]);
      StepKeepsRows(Run(es[..|es| - 1]), es[|es| - 1]);
    }
  }

  /**
   In every reachable state a candidate's history is a path of the declared graph, and it is published
   exactly when exactly one release cites it, however often jobs and decisions repeat; a candidate
   that is validated has ten passes, in order, as its recorded verdict.
   */
  lemma PublishedExactlyOnce(es: seq<Delivery>, x: nat)
    requires x < |Run(es).rows|
    ensures var db := Run(es);
      && HistorySound(db.rows[x])
      && (db.rows[x].c.state == Published <==> exists r | 0 <= r < |db.catalog.releases| :: db.catalog.releases[r].candidate == x)
      && (forall r, q | 0 <= r < |db.catalog.releases| && 0 <= q < |db.catalog.releases| ::
            db.catalog.releases[r].candidate == x && db.catalog.releases[q].candidate == x ==> r == q)
      && (db.rows[x].c.state == Validated ==> Gates.AllTenPassed(db.rows[x].verdict))
  {
    hide Run, RowsInvariant;
    RunsKeepRows(es);
    CitedOnce(Run(es), x);
  }

  lemma CitedOnce(db: Db, x: nat)
    requires RowsInvariant(db) && x < |db.rows|
    ensures HistorySound(db.rows[x])
    ensures db.rows[x].c.state == Published <==> exists r | 0 <= r < |db.catalog.releases| :: db.catalog.releases[r].candidate == x
    ensures forall r, q | 0 <= r < |db.catalog.releases| && 0 <= q < |db.catalog.releases| ::
      db.catalog.releases[r].candidate == x && db.catalog.releases[q].candidate == x ==> r == q
    ensures db.rows[x].c.state == Validated ==> Gates.AllTenPassed(db.rows[x].verdict)
  {
    forall r | 0 <= r < |db.catalog.releases| && db.catalog.releases[r].candidate == x
      ensures db.rows[x].c.state == Published && db.rows[x].c.publishedRelease == Some(r)
    {
      assert NamedBack(db, r);
    }
    if db.rows[x].c.state == Published { assert NamesRelease(db, x); }
  }

  /**
   What a history can look like: extraction first, publication only from validated or from waiting for a human,
   nothing after publication but supersession, and nothing after a rejection but a return to a human.
   */
  lemma HistoriesReadSo(es: seq<Delivery>, x: nat, i: nat)
    requires x < |Run(es).rows| && 0 < i < |Run(es).rows[x].trail|
    ensures var trail := Run(es).rows[x].trail;
      && trail[0] == Extracted && trail[i] != Extracted && trail[i] != Discovered
      && (trail[i] == Published ==> trail[i - 1] in {Validated, HumanReviewRequired})
      && (trail[i] == Validated ==> trail[i - 1] in {ValidationPending, HumanReviewRequired})
      && (trail[i - 1] == Published ==> trail[i] == Superseded)
      && (trail[i - 1] == Rejected ==> trail[i] == HumanReviewRequired)
      && trail[i - 1] != Superseded
  {
    hide Run, RowsInvariant;
    RunsKeepRows(es);
    RowIsSound(Run(es), x);
    var trail := Run(es).rows[x].trail;
    assert CanTransition(trail[i - 1], trail[i]);
    if i > 1 { assert CanTransition(trail[i - 2], trail[i - 1]); }
  }

  lemma RowIsSound(db: Db, x: nat)
    requires RowsInvariant(db) && x < |db.rows|
    ensures HistorySound(db.rows[x])
  {
  }

  /** Row x is still there, and if it was published it is published as the same release. */
  predicate KeepsPublished(db: Db, next: Db, x: nat) {
    x < |db.rows| ==>
      && x < |next.rows|
      && (db.rows[x].c.state == Published ==>
            next.rows[x].c.state == Published && next.rows[x].c.publishedRelease == db.rows[x].c.publishedRelease)
  }

  /** Published is never left, and the release a candidate became never changes, whatever is delivered. */
  lemma PublishedIsFinal(db: Db, e: Delivery, x: nat)
    ensures KeepsPublished(db, Step(db, e), x)
  {
    hide Ingest.Validate, Review.Decide, KeepsPublished;
    match e
    case Extraction(source, collected, now) => KeptByExtraction(db, source, collected, now, x);
    case ValidationJob(w, now, id) =>
      if Ingest.Validate(db, w, now, id).Success? { KeptByValidation(db, w, now, id, x); } else { KeptAsIs(db, x); }
    case PublicationJob(w, now, id) => KeptByPublication(db, w, now, id, x);
    case Decision(w, now, item, input, accept) =>
      KeptAsIs(db, x);
      if item < |db.items| && Review.Decide(db, w, now, item, db.items[item], input, accept).Success? {
        KeptByDecision(db, w, now, item, db.items[item], input, accept, x);
      }
    case LateDecision(w, now, item, seen, input, accept) =>
      KeptAsIs(db, x);
      if Review.Decide(db, w, now, item, seen, input, accept).Success? {
        KeptByDecision(db, w, now, item, seen, input, accept, x);
      }
  }

  lemma KeptAsIs(db: Db, x: nat)
    ensures KeepsPublished(db, db, x)
  {
  }

  lemma KeptByExtraction(db: Db, source: string, collected: Candidate, now: int, x: nat)
    ensures KeepsPublished(db, Step(db, Extraction(source, collected, now)), x)
  {
  }

  lemma KeptByPublication(db: Db, w: World, now: int, id: nat, x: nat)
    ensures KeepsPublished(db, Step(db, PublicationJob(w, now, id)), x)
  {
    hide Releases.Publish;
  }

  lemma KeptByDecision(db: Db, w: World, now: int, item: nat, seen: ReviewItem, input: Review.Input, accept: bool, x: nat)
    requires Review.Decide(db, w, now, item, seen, input, accept).Success?
    ensures KeepsPublished(db, Review.Decide(db, w, now, item, seen, input, accept).value.db, x)
  {
    hide Releases.Publish;
  }

  lemma KeptByValidation(db: Db, w: World, now: int, id: nat, x: nat)
    requires Ingest.Validate(db, w, now, id).Success?
    ensures KeepsPublished(db, Ingest.Validate(db, w, now, id).value.db, x)
  {
    hide Ingest.Validate, Ingest.Inspect, Ingest.Reconcile, Ingest.ReconcileConflict, Gates.Judge,
      Ingest.RouteToReview, Ingest.DesiredItem, Ingest.JudgedRow;
    Ingest.ValidationAnatomy(db, w, now, id);
    var f, rec := Ingest.Inspect(db, w, now, id).value, Ingest.Reconcile(db, w, now, id).value;
    var judged := Ingest.Judged(db, f, rec, id, now);
    KeptByJudging(db.rows[id], f);
    if Ingest.NeedsItem(f, rec) {
      KeptByRouting(judged, id, Ingest.DesiredItem(w, judged.rows[id].c, id, f.src, f.verdict, f.a, rec.outcome, now),
        db.rows[id].c.source, f.a, rec.outcome, x);
    }
  }

  lemma KeptByJudging(r: Row, f: Ingest.Findings)
    ensures r.c.state == Published ==>
      && Ingest.JudgedRow(r, f).c.state == Published
      && Ingest.JudgedRow(r, f).c.publishedRelease == r.c.publishedRelease
  {
    PathToArrivesOrStays(r.c.state, Ingest.StateFor(f.verdict.decision));
  }

  lemma KeptByRouting(db: Db, id: nat, d: ReviewItem, source: string, a: Ingest.Assessment, outcome: Ingest.ConflictOutcome, x: nat)
    ensures KeepsPublished(db, Ingest.RouteToReview(db, id, d, source, a, outcome).0, x)
  {
    hide Ingest.OpenItemFor, Ingest.ChooseItem;
  }
}
