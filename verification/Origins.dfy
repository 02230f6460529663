/**
 Where stored facts come from: every candidate row from one extraction, every release from one candidate and
 one source, field by field, over every run.
 */
module Origins {
  import opened Wrappers
  import opened Text
  import opened Candidates
  import opened Tables
  import Gates
  import Releases
  import Ingest
  import Review
  import opened Runs

  // ---------------------------------------------------------------------------------------------
  // Candidates
  // ---------------------------------------------------------------------------------------------

  /** Everything a candidate was collected with but its product, which may be filled in once. */
  predicate SameFacts(c: Candidate, c': Candidate) {
    && c'.source == c.source && c'.dedupeKey == c.dedupeKey && c'.evidence == c.evidence && c'.hint == c.hint
    && c'.version == c.version && c'.releaseType == c.releaseType && c'.proposedType == c.proposedType
    && c'.channel == c.channel && c'.releaseDate == c.releaseDate && c'.confidence == c.confidence
    && c'.discoveredAt == c.discoveredAt
    && (c.product != "" ==> c'.product == c.product && c'.matched == c.matched)
  }

  /** The rows that were there are still there, with the same facts. */
  ghost predicate KeepsFacts(db: Db, next: Db) {
    |next.rows| >= |db.rows| && forall x | 0 <= x < |db.rows| :: SameFacts(db.rows[x].c, next.rows[x].c)
  }

  lemma ValidationKeepsFacts(db: Db, w: World, now: int, id: nat)
    requires Ingest.Validate(db, w, now, id).Success?
    ensures var next := Ingest.Validate(db, w, now, id).value.db;
      && KeepsFacts(db, next) && |next.rows| == |db.rows|
      && |next.catalog.releases| == |db.catalog.releases| && next.catalog.mappings == db.catalog.mappings
      && forall i | 0 <= i < |db.catalog.releases| :: SameButVerified(db.catalog.releases[i], next.catalog.releases[i])
  {
    hide Ingest.Validate, Ingest.Inspect, Ingest.Reconcile, Ingest.ReconcileConflict, Gates.Judge,
      Ingest.DesiredItem, Ingest.RouteToReview, PathTo, Ingest.BuildContext, Ingest.Assess, Ingest.ResolveProduct;
    Ingest.ValidationAnatomy(db, w, now, id);
    var f, rec := Ingest.Inspect(db, w, now, id).value, Ingest.Reconcile(db, w, now, id).value;
    var judged := Ingest.Judged(db, f, rec, id, now);
    if Ingest.NeedsItem(f, rec) {
      RoutingKeepsFacts(judged, id, Ingest.DesiredItem(w, judged.rows[id].c, id, f.src, f.verdict, f.a, rec.outcome, now),
        db.rows[id].c.source, f.a, rec.outcome);
    }
  }

  lemma RoutingKeepsFacts(db: Db, id: nat, d: ReviewItem, source: string, a: Ingest.Assessment, outcome: Ingest.ConflictOutcome)
    ensures var next := Ingest.RouteToReview(db, id, d, source, a, outcome).0;
      && |next.rows| == |db.rows| && next.catalog == db.catalog
      && forall x | 0 <= x < |db.rows| :: next.rows[x].c == db.rows[x].c.(state := next.rows[x].c.state)
  {
    hide Ingest.OpenItemFor, Ingest.ChooseItem, Ingest.LinkReviewItem;
  }

  /** A release as it was entered: only when it was last verified may change. */
  predicate SameButVerified(r: Releases.Release, r': Releases.Release) {
    r' == r.(lastVerifiedAt := r'.lastVerifiedAt)
  }

  // ---------------------------------------------------------------------------------------------
  // Releases
  // ---------------------------------------------------------------------------------------------

  /** The type a release is published as: the collector's, unless that is unknown and another was proposed. */
  predicate TypedAs(c: Candidate, kind: Option<ReleaseType>) {
    if c.releaseType.Some? && c.releaseType != Some(UnknownType) then kind == c.releaseType
    else if c.proposedType.Some? && c.proposedType != Some(UnknownType) then kind == c.proposedType
    else kind == c.releaseType
  }

  /** A release says what its candidate says. */
  predicate Carries(r: Releases.Release, c: Candidate) {
    && r.version == c.version && TypedAs(c, r.kind) && r.channel == c.channel && r.releaseDate == c.releaseDate
    && r.evidence == c.evidence && r.confidence == c.confidence && !r.withdrawn
    && (c.discoveredAt != 0 ==> r.firstObservedAt == c.discoveredAt)
  }

  /** Who may publish, what and when. */
  predicate Publishable(w: World, c: Candidate) {
    && (c.state == Validated || c.state == HumanReviewRequired)
    && !Blank(c.product)
    && c.source in w.sources && !Blank(w.sources[c.source].vendor)
    && (w.sources[c.source].robots == Allowed || w.sources[c.source].robots == NotApplicable)
    && (w.sources[c.source].terms == Approved || w.sources[c.source].terms == Restricted)
    && c.version.raw != "" && c.evidence.Some? && 0.0 <= c.confidence <= 1.0
    && !TypedAs(c, None) && !TypedAs(c, Some(UnknownType))
  }

  /** Publication goes through exactly for a candidate that is published already, and then writes nothing, or is publishable. */
  lemma PublishesIff(db: Db, w: World, now: int, id: nat)
    ensures var p := Ingest.PublishRelease(db, w, now, id);
      && (p.Success? <==> id < |db.rows| && (db.rows[id].c.state == Published || Publishable(w, db.rows[id].c)))
      && (p.Success? ==> (p.value.published <==> db.rows[id].c.state != Published))
      && (p.Success? && !p.value.published ==> p.value.db == db && p.value.release == db.rows[id].c.publishedRelease)
  {
    hide Releases.Publish;
  }

  /** What a publication writes: one release that carries its candidate, dated by the clock, for its product; and the candidate's link to it. */
  lemma PublicationWrites(db: Db, w: World, now: int, id: nat)
    requires Ingest.PublishRelease(db, w, now, id).Success? && Ingest.PublishRelease(db, w, now, id).value.published
    ensures var next := Ingest.PublishRelease(db, w, now, id).value.db; var n := |db.catalog.releases|;
      && id < |db.rows| && db.rows[id].c.source in w.sources
      && |next.catalog.releases| == n + 1 && (forall i | 0 <= i < n :: next.catalog.releases[i] == db.catalog.releases[i])
      && (var r := next.catalog.releases[n];
          && Carries(r, db.rows[id].c) && r.candidate == id && r.vendor == w.sources[db.rows[id].c.source].vendor
          && r.publishedAt == now && r.lastVerifiedAt == now && (db.rows[id].c.discoveredAt == 0 ==> r.firstObservedAt == now))
      && |next.catalog.mappings| == |db.catalog.mappings| + 1
      && (forall i | 0 <= i < |db.catalog.mappings| :: next.catalog.mappings[i] == db.catalog.mappings[i].(latest := next.catalog.mappings[i].latest))
      && next.catalog.mappings[|db.catalog.mappings|].release == n
      && next.catalog.mappings[|db.catalog.mappings|].product == db.rows[id].c.product
      && next.catalog.mappings[|db.catalog.mappings|].channel == db.rows[id].c.channel
      && next == db.(catalog := next.catalog, rows := db.rows[id := db.rows[id].(
           c := db.rows[id].c.(state := Published, publishedRelease := Some(n)), trail := db.rows[id].trail + [Published])])
  {
    hide Releases.TakesFlag, Releases.ValidRelease, CompliancePermitsCollection;
  }

  // ---------------------------------------------------------------------------------------------
  // Every delivery
  // ---------------------------------------------------------------------------------------------

  /** The delivery could publish, and did so under this source's vendor and at this time. */
  predicate EnteredBy(e: Delivery, r: Releases.Release, c: Candidate) {
    && (e.PublicationJob? || e.Decision? || e.LateDecision?)
    && c.source in e.w.sources && r.vendor == e.w.sources[c.source].vendor && r.publishedAt == e.now
  }

  /** Release r and its mapping say what the candidate it cites says. */
  predicate Sourced(db: Db, r: nat)
    requires r < |db.catalog.releases| && |db.catalog.mappings| == |db.catalog.releases|
  {
    && var x := db.catalog.releases[r].candidate;
       && x < |db.rows| && Carries(db.catalog.releases[r], db.rows[x].c)
       && db.catalog.mappings[r].release == r && db.catalog.mappings[r].channel == db.rows[x].c.channel
       && db.catalog.mappings[r].product == db.rows[x].c.product && !Blank(db.rows[x].c.product)
  }

  /** Old rows and releases keep their facts; a new release is sourced, and entered by this delivery. */
  ghost predicate GrowsSourced(db: Db, next: Db, e: Delivery) {
    && KeepsFacts(db, next)
    && |next.catalog.releases| >= |db.catalog.releases|
    && |next.catalog.mappings| - |next.catalog.releases| == |db.catalog.mappings| - |db.catalog.releases|
    && (forall r | 0 <= r < |db.catalog.releases| :: SameButVerified(db.catalog.releases[r], next.catalog.releases[r]))
    && (forall i | 0 <= i < |db.catalog.mappings| :: next.catalog.mappings[i] == db.catalog.mappings[i].(latest := next.catalog.mappings[i].latest))
    && (|db.catalog.mappings| == |db.catalog.releases| ==>
          forall r | |db.catalog.releases| <= r < |next.catalog.releases| ::
            Sourced(next, r) && EnteredBy(e, next.catalog.releases[r], next.rows[next.catalog.releases[r].candidate].c))
  }

  lemma PublicationGrows(db: Db, w: World, now: int, id: nat, e: Delivery)
    requires Ingest.PublishRelease(db, w, now, id).Success?
    requires (e.PublicationJob? || e.Decision? || e.LateDecision?) && e.w == w && e.now == now
    ensures GrowsSourced(db, Ingest.PublishRelease(db, w, now, id).value.db, e)
  {
    hide Carries, TypedAs;
    PublishesIff(db, w, now, id);
    if Ingest.PublishRelease(db, w, now, id).value.published {
      PublicationWrites(db, w, now, id);
      hide Ingest.PublishRelease;
      CarriesAnyState(db.rows[id].c);
    }
  }

  lemma CarriesAnyState(c: Candidate)
    ensures forall r: Releases.Release, s: State, p: Option<nat> | Carries(r, c) :: Carries(r, c.(state := s, publishedRelease := p))
  {
  }

  lemma DecisionGrows(db: Db, w: World, now: int, item: nat, seen: ReviewItem, input: Review.Input, accept: bool, e: Delivery)
    requires Review.Decide(db, w, now, item, seen, input, accept).Success?
    requires (e.Decision? || e.LateDecision?) && e.w == w && e.now == now
    ensures GrowsSourced(db, Review.Decide(db, w, now, item, seen, input, accept).value.db, e)
  {
    hide Ingest.PublishRelease, Carries, EnteredBy;
    var next := Review.Decide(db, w, now, item, seen, input, accept).value.db;
    if accept && seen.subject.CandidateSubject? {
      var resolved := db.(items := db.items[item := db.items[item].(
        state := Resolved, resolution := Review.Resolution(input, accept), resolvedBy := input.actor, resolvedAt := now)]);
      PublicationGrows(resolved, w, now, seen.subject.candidate, e);
      SameTablesGrow(resolved, Ingest.PublishRelease(resolved, w, now, seen.subject.candidate).value.db, db, next, e);
    }
  }

  lemma SameTablesGrow(db: Db, next: Db, db': Db, next': Db, e: Delivery)
    requires GrowsSourced(db, next, e)
    requires db'.rows == db.rows && db'.catalog == db.catalog && next'.rows == next.rows && next'.catalog == next.catalog
    ensures GrowsSourced(db', next', e)
  {
    hide Carries, EnteredBy;
    if |db.catalog.mappings| == |db.catalog.releases| {
      forall r | |db.catalog.releases| <= r < |next.catalog.releases| ensures Sourced(next', r) { assert Sourced(next, r); }
    }
  }

  lemma StepGrows(db: Db, e: Delivery)
    ensures GrowsSourced(db, Step(db, e), e)
  {
    hide Ingest.Validate, Ingest.PublishRelease, Review.Decide, Carries, EnteredBy;
    match e
    case Extraction(source, collected, now) =>
    case ValidationJob(w, now, id) =>
      if Ingest.Validate(db, w, now, id).Success? { ValidationKeepsFacts(db, w, now, id); }
    case PublicationJob(w, now, id) =>
      if Ingest.PublishRelease(db, w, now, id).Success? { PublicationGrows(db, w, now, id, e); }
    case Decision(w, now, item, input, accept) =>
      if item < |db.items| && Review.Decide(db, w, now, item, db.items[item], input, accept).Success? {
        DecisionGrows(db, w, now, item, db.items[item], input, accept, e);
      }
    case LateDecision(w, now, item, seen, input, accept) =>
      if Review.Decide(db, w, now, item, seen, input, accept).Success? {
        DecisionGrows(db, w, now, item, seen, input, accept, e);
      }
  }

  // ---------------------------------------------------------------------------------------------
  // Every run
  // ---------------------------------------------------------------------------------------------

  ghost predicate AllSourced(db: Db) {
    |db.catalog.mappings| == |db.catalog.releases| && forall r | 0 <= r < |db.catalog.releases| :: Sourced(db, r)
  }

  lemma GrowingKeepsSourced(db: Db, next: Db, e: Delivery)
    requires AllSourced(db) && GrowsSourced(db, next, e)
    ensures AllSourced(next)
  {
    hide EnteredBy;
    forall r | 0 <= r < |next.catalog.releases| ensures Sourced(next, r) {
      if r < |db.catalog.releases| {
        assert Sourced(db, r);
        var x := db.catalog.releases[r].candidate;
        assert SameFacts(db.rows[x].c, next.rows[x].c);
        assert SameButVerified(db.catalog.releases[r], next.catalog.releases[r]);
        SourcedStays(db, next, r);
      }
    }
  }

  lemma SourcedStays(db: Db, next: Db, r: nat)
    requires |db.catalog.mappings| == |db.catalog.releases| && |next.catalog.mappings| == |next.catalog.releases|
    requires r < |db.catalog.releases| <= |next.catalog.releases| && Sourced(db, r)
    requires var x := db.catalog.releases[r].candidate; x < |next.rows| && SameFacts(db.rows[x].c, next.rows[x].c)
    requires SameButVerified(db.catalog.releases[r], next.catalog.releases[r])
    requires next.catalog.mappings[r] == db.catalog.mappings[r].(latest := next.catalog.mappings[r].latest)
    ensures Sourced(next, r)
  {
  }

  /**
   Over every run each release has one mapping, in the same place, and carries the version, type, channel, date,
   evidence and confidence of the candidate it cites, whose product its mapping names.
   */
  lemma {:induction false} ReleasesAreSourced(es: seq<Delivery>)
    ensures AllSourced(Run(es))
  {
    hide Step, Sourced, GrowsSourced;
    if |es| > 0 {
      var init := es[..|es| - 1];
      ReleasesAreSourced(init);
      StepGrows(Run(init), es[|es| - 1]);
      GrowingKeepsSourced(Run(init), Run(es), es[|es| - 1]);
    }
  }

  /** Over every run each release was entered by some delivery, under the vendor its candidate's source had then and at that time. */
  lemma {:induction false} ReleasesAreEntered(es: seq<Delivery>, r: nat)
    requires r < |Run(es).catalog.releases|
    ensures Run(es).catalog.releases[r].candidate < |Run(es).rows|
    ensures exists k | 0 <= k < |es| ::
      EnteredBy(es[k], Run(es).catalog.releases[r], Run(es).rows[Run(es).catalog.releases[r].candidate].c)
  {
    hide Step, Sourced, EnteredBy, Carries;
    ReleasesAreSourced(es);
    assert Sourced(Run(es), r);
    SourcedIsInRange(Run(es), r);
    if |es| > 0 {
      var n := |es| - 1;
      var db, next := Run(es[..n]), Run(es);
      StepGrows(db, es[n]);
      ReleasesAreSourced(es[..n]);
      if r < |db.catalog.releases| {
        ReleasesAreEntered(es[..n], r);
        var x := db.catalog.releases[r].candidate;
        var k :| 0 <= k < n && EnteredBy(es[..n][k], db.catalog.releases[r], db.rows[x].c);
        EnteredStays(es[k], db.catalog.releases[r], next.catalog.releases[r], db.rows[x].c, next.rows[x].c);
      }
    }
  }

  lemma SourcedIsInRange(db: Db, r: nat)
    requires r < |db.catalog.releases| && |db.catalog.mappings| == |db.catalog.releases| && Sourced(db, r)
    ensures db.catalog.releases[r].candidate < |db.rows|
  {
  }

  lemma EnteredStays(e: Delivery, r: Releases.Release, r': Releases.Release, c: Candidate, c': Candidate)
    requires EnteredBy(e, r, c) && SameButVerified(r, r') && SameFacts(c, c')
    ensures EnteredBy(e, r', c')
  {
  }

  /** The row is what an extraction handed over, put under its source, its evidence and its time. */
  predicate CollectedBy(e: Delivery, x: nat, c: Candidate) {
    && e.Extraction?
    && SameFacts(e.collected.(source := e.source, evidence := Some(x), discoveredAt := e.now), c)
    && !Blank(e.source) && !Blank(e.collected.dedupeKey) && e.collected.version.raw != "" && 0.0 <= e.collected.confidence <= 1.0
  }

  /** Extraction adds at most one row, and one exactly when the candidate is sound and its source has none under its key. */
  lemma ExtractionAdds(db: Db, source: string, collected: Candidate, now: int)
    ensures var next := Step(db, Extraction(source, collected, now)); var n := |db.rows|;
      && next == db.(rows := next.rows) && n <= |next.rows| <= n + 1 && next.rows[..n] == db.rows
      && (|next.rows| == n + 1 <==>
            && collected.state in {Discovered, Extracted}
            && !Blank(source) && !Blank(collected.dedupeKey) && collected.version.raw != "" && 0.0 <= collected.confidence <= 1.0
            && forall x | 0 <= x < n :: db.rows[x].c.source != source || db.rows[x].c.dedupeKey != collected.dedupeKey)
      && (|next.rows| == n + 1 ==>
            && CollectedBy(Extraction(source, collected, now), n, next.rows[n].c)
            && next.rows[n].c.product == collected.product
            && next.rows[n].c.state == Extracted && next.rows[n].trail == [Extracted] && next.rows[n].verdict == [])
  {
  }

  lemma OnlyExtractionAddsRows(db: Db, e: Delivery)
    ensures !e.Extraction? ==> |Step(db, e).rows| == |db.rows|
  {
    hide Ingest.Validate, Ingest.Extract, Releases.Publish, Ingest.ReleaseFor, Releases.ValidRelease, CompliancePermitsCollection, Closed;
    match e
    case ValidationJob(w, now, id) =>
      if Ingest.Validate(db, w, now, id).Success? { ValidationKeepsFacts(db, w, now, id); }
    case _ =>
  }

  ghost predicate WasCollected(es: seq<Delivery>, x: nat, c: Candidate) {
    exists k | 0 <= k < |es| :: CollectedBy(es[k], x, c)
  }

  /** Over every run each candidate row is what one extraction of the run handed over, and no two rows of a source share a key. */
  lemma {:induction false} RowsAreCollectedOnce(es: seq<Delivery>)
    ensures forall x | 0 <= x < |Run(es).rows| :: WasCollected(es, x, Run(es).rows[x].c)
    ensures forall x, y | 0 <= x < y < |Run(es).rows| ::
      Run(es).rows[x].c.source != Run(es).rows[y].c.source || Run(es).rows[x].c.dedupeKey != Run(es).rows[y].c.dedupeKey
  {
    hide Step, CollectedBy;
    if |es| > 0 {
      var n := |es| - 1;
      var init, e := es[..n], es[n];
      var db, next := Run(init), Run(es);
      RowsAreCollectedOnce(init);
      StepGrows(db, e);
      OnlyExtractionAddsRows(db, e);
      if e.Extraction? { ExtractionAdds(db, e.source, e.collected, e.now); }
      forall x | 0 <= x < |next.rows| ensures WasCollected(es, x, next.rows[x].c) {
        if x < |db.rows| {
          assert WasCollected(init, x, db.rows[x].c);
          var k :| 0 <= k < n && CollectedBy(init[k], x, db.rows[x].c);
          CollectedStays(es[k], x, db.rows[x].c, next.rows[x].c);
        } else {
          assert CollectedBy(es[n], x, next.rows[x].c);
        }
      }
      forall x, y | 0 <= x < y < |next.rows|
        ensures next.rows[x].c.source != next.rows[y].c.source || next.rows[x].c.dedupeKey != next.rows[y].c.dedupeKey
      {
        assert SameFacts(db.rows[x].c, next.rows[x].c);
        if y < |db.rows| { assert SameFacts(db.rows[y].c, next.rows[y].c); } else { CollectedAs(e, y, next.rows[y].c); }
      }
    }
  }

  lemma CollectedStays(e: Delivery, x: nat, c: Candidate, c': Candidate)
    requires CollectedBy(e, x, c) && SameFacts(c, c')
    ensures CollectedBy(e, x, c')
  {
  }

  lemma CollectedAs(e: Delivery, x: nat, c: Candidate)
    requires CollectedBy(e, x, c)
    ensures c.source == e.source && c.dedupeKey == e.collected.dedupeKey
  {
  }
}
