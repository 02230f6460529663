/**
 What extraction, validation and publication do to the tables (internal/application/ingest.go),
 stage by stage. Store.dfy carries the same stages out one write at a time and is proved against these.
 */
module Ingest {
  import opened Wrappers
  import opened Text
  import opened PartialDates
  import opened Candidates
  import opened Tables
  import Gates
  import Conflicts
  import Releases

  // ---------------------------------------------------------------------------------------------
  // Extraction
  // ---------------------------------------------------------------------------------------------

  /** UpsertByDedupeKey's key. */
  predicate SameCandidate(r: Row, c: Candidate) {
    r.c.source == c.source && r.c.dedupeKey == c.dedupeKey
  }

  /** CandidateRelease.Validate. */
  predicate ValidCandidate(c: Candidate) {
    !Blank(c.source) && c.version.raw != "" && 0.0 <= c.confidence <= 1.0 && !Blank(c.dedupeKey)
  }

  /** ExtractCandidates for one candidate a collector produced: stored as extracted, or already there. */
  function Extract(db: Db, source: string, collected: Candidate, now: int): Result<Db, Error> {
    var c := collected.(source := source, evidence := Some(|db.rows|), discoveredAt := now);
    if TransitionTo(c.state, Extracted).None? then Failure(InvalidTransition)
    else if !ValidCandidate(c) then Failure(Invalid)
    else if exists i | 0 <= i < |db.rows| :: SameCandidate(db.rows[i], c) then Success(db)
    else Success(db.(rows := db.rows + [Row(c.(state := Extracted), [], [Extracted])]))
  }

  // ---------------------------------------------------------------------------------------------
  // Validation: what it reads
  // ---------------------------------------------------------------------------------------------

  datatype Match = Match(resolved: bool, ambiguous: bool, product: string)

  /** Product resolution; product is set only when a hint resolved to exactly one product. */
  function ResolveProduct(w: World, src: Source, c: Candidate): Match {
    match c.matched
    case Unique => Match(c.product != "", false, "")
    case Ambiguous => Match(false, true, "")
    case NoMatch => Match(false, false, "")
    case Unmatched =>
      if c.product != "" then Match(true, false, "")
      else
        var found := w.resolve(src.vendor, c.hint);
        if |found| == 0 then Match(false, false, "")
        else if |found| == 1 then Match(true, false, found[0])
        else Match(false, true, "")
  }

  datatype Assessment =
    | Skipped
    | Assessed(subject: Conflicts.Claim, others: seq<Conflicts.Claim>, verdict: Conflicts.Verdict, recordable: bool)

  function SubjectClaim(c: Candidate, id: nat, src: Source, product: string, now: int, since: int): Conflicts.Claim {
    Conflicts.Claim(
      Conflicts.Observation(c.source, product, c.channel, c.version.raw, c.version.normalized,
        c.releaseDate, id, now, since),
      src.quality, MayCollect(src))
  }

  /** What every other source says about the candidate's product and channel. */
  function Assess(os: seq<Conflicts.Observation>, w: World, c: Candidate, id: nat, src: Source, product: string, now: int): Assessment {
    if product == "" then Skipped
    else
      var others := ClaimsFor(os, w, product, c.channel);
      var previous := OwnClaim(others, c.source);
      var since := if previous.Some? then previous.value.firstObservedAt else now;
      var subject := SubjectClaim(c, id, src, product, now, since);
      Assessed(subject, others, Conflicts.AssessSourceConflict(subject, others),
        MayCollect(src) && !Blank(c.version.normalized)
          && (previous.None? || Conflicts.LaterObservation(subject.o, previous.value)))
  }

  /** The duplicate and the previous version: looked up only for a product the candidate came with. */
  function DuplicateOf(cat: Releases.Tables, c: Candidate): (r: Option<nat>)
    ensures r.Some? ==> r.value < |cat.releases|
  {
    if c.product == "" then None else Releases.FindDuplicate(cat, c.product, c.version.normalized, c.channel)
  }

  function PreviousVersion(cat: Releases.Tables, c: Candidate): Option<Version> {
    if c.product == "" then None
    else
      var latest := Releases.LatestForProduct(cat, c.product, c.channel);
      if latest.None? then None else Some(cat.releases[latest.value].version)
  }

  function BuildContext(cat: Releases.Tables, w: World, c: Candidate, src: Source, m: Match, a: Assessment, now: int): Gates.Context {
    Gates.Context(now, m.resolved, m.ambiguous, MayCollect(src),
      src.official && src.quality == Conflicts.OfficialManufacturer,
      DuplicateOf(cat, c), w.implausible(PreviousVersion(cat, c), c.version), c.evidence.Some?, w.threshold, true,
      if a.Assessed? then a.verdict.conflictingVersions else [],
      if a.Assessed? then a.verdict.outrankedVersions else [],
      w.futureTolerance, w.earliest)
  }

  // ---------------------------------------------------------------------------------------------
  // Validation: recording the claim and the conflict
  // ---------------------------------------------------------------------------------------------

  /** linked is the item already attached to a conflict that was open before. */
  datatype ConflictOutcome = ConflictOutcome(conflict: Option<nat>, linked: Option<nat>)

  const NO_CONFLICT := ConflictOutcome(None, None)

  datatype Reconciled = Reconciled(
    observations: seq<Conflicts.Observation>, conflicts: seq<Conflicts.SourceConflict>,
    outcome: ConflictOutcome, events: seq<Event>)

  const SYSTEM := "system"

  /** reconcileConflict once the claim is stored: open or refresh the conflict, or close it. */
  function SettleConflict(os: seq<Conflicts.Observation>, ks: seq<Conflicts.SourceConflict>, a: Assessment, now: int)
    : (r: Result<Reconciled, Error>)
    requires a.Assessed?
  {
    var o := a.subject.o;
    if !a.subject.eligible then Success(Reconciled(os, ks, NO_CONFLICT, []))
    else if a.verdict.status == Conflicts.Unresolved then
      var k := Conflicts.NewConflict(a.subject, a.verdict, now);
      if !Conflicts.ValidConflict(k) then Failure(Invalid)
      else
        var (after, id, created) := UpsertOpenConflict(ks, k);
        Success(Reconciled(os, after, ConflictOutcome(Some(id), after[id].reviewItem),
          if created then [SourceConflictDetected(id)] else []))
    else
      var outranked := |a.verdict.outrankedVersions| > 0;
      var found := OpenConflictFor(ks, o.product, o.channel);
      if found.None? then Success(Reconciled(os, ks, NO_CONFLICT, []))
      else
        var resolution := if outranked then "resolved by source authority" else "sources agree";
        Success(Reconciled(os, ks[found.value := Closed(ks[found.value], SYSTEM, resolution, now)], NO_CONFLICT,
          [SourceConflictResolved(o.product, o.channel, outranked)]))
  }

  function ReconcileConflict(os: seq<Conflicts.Observation>, ks: seq<Conflicts.SourceConflict>, a: Assessment, now: int)
    : Result<Reconciled, Error>
  {
    if a.Skipped? then Success(Reconciled(os, ks, NO_CONFLICT, []))
    else if a.recordable && !Conflicts.Storable(a.subject.o) then Failure(Invalid)
    else SettleConflict(if a.recordable then RecordObservation(os, a.subject.o) else os, ks, a, now)
  }

  // ---------------------------------------------------------------------------------------------
  // Validation: the review queue
  // ---------------------------------------------------------------------------------------------

  /** disputingCandidateIDs: the subject's candidate and those behind every other eligible claim. */
  function DisputingCandidates(a: Assessment): set<nat>
    requires a.Assessed?
  {
    {a.subject.o.candidate} + set c | c in a.others && c.o.source != a.subject.o.source && c.eligible :: c.o.candidate
  }

  function ReviewPayload(results: seq<Gates.GateResult>, outcome: ConflictOutcome, a: Assessment): Payload {
    var failing := Gates.FailingGate(results);
    if outcome.conflict.None? || a.Skipped? then Payload(failing, None, [], [], {})
    else Payload(failing, outcome.conflict,
      MergeParticipants(a.subject.o.normalized, a.verdict.conflictingVersions),
      MergeParticipants(a.subject.o.source, a.verdict.conflictingSources),
      DisputingCandidates(a))
  }

  function Priority(w: World, c: Candidate, src: Source, v: Gates.Verdict, a: Assessment): int {
    w.score(Gates.FailingGate(v.results), src.quality, src.official, c.confidence, EffectiveType(c),
      a.Assessed? && a.verdict.status == Conflicts.Unresolved, c.product)
  }

  /** desiredReviewItem: about the candidate while a reviewer could accept it, else about the conflict. */
  function DesiredItem(w: World, c: Candidate, id: nat, src: Source, v: Gates.Verdict, a: Assessment, outcome: ConflictOutcome, now: int)
    : ReviewItem
    requires v.decision == Gates.ReviewRequired || outcome.conflict.Some?
  {
    ReviewItem(
      if v.decision == Gates.ReviewRequired then Gates.ReviewKindFor(v.results) else Gates.MultiSourceConflict,
      if v.decision == Gates.ReviewRequired then CandidateSubject(id) else ConflictSubject(outcome.conflict.value),
      src.vendor, c.product, ReviewPayload(v.results, outcome, a), Priority(w, c, src, v, a),
      Open, "", "", 0, now)
  }

  /** openReviewItemFor: the open item linked to the conflict, else the open item of the subject. */
  function OpenItemFor(items: seq<ReviewItem>, outcome: ConflictOutcome, s: Subject): (r: Option<nat>)
    ensures r.Some? ==> r.value < |items| && IsOpen(items[r.value])
  {
    if outcome.linked.Some? && outcome.linked.value < |items| && IsOpen(items[outcome.linked.value])
    then outcome.linked else FindOpenBySubject(items, s)
  }

  /** Whether an item's subject is still one a reviewer should be looking at. */
  predicate StillInDispute(s: Subject, desired: Subject, id: nat, source: string, a: Assessment) {
    match s
    case ConflictSubject(_) => desired.ConflictSubject?
    case CandidateSubject(x) =>
      x == id || (a.Assessed? && exists c | c in a.others :: c.o.source != source && c.eligible && c.o.candidate == x)
  }

  /** The fields every retargeting rewrites. */
  function Redescribed(i: ReviewItem, d: ReviewItem): ReviewItem {
    i.(vendor := d.vendor, product := d.product, payload := d.payload, priority := d.priority)
  }

  /** Which open item ends up describing the decision, and whether its subject has to move. */
  function ChooseItem(items: seq<ReviewItem>, found: nat, d: ReviewItem, id: nat, source: string, a: Assessment): (r: (nat, bool))
    requires found < |items| && IsOpen(items[found])
    ensures r.0 < |items| && IsOpen(items[r.0])
  {
    if StillInDispute(items[found].subject, d.subject, id, source, a) then (found, false)
    else
      var replacement := FindOpenBySubject(items, d.subject);
      if replacement.Some? && replacement.value != found then (replacement.value, false) else (found, true)
  }

  /** linkReviewItem. */
  function LinkReviewItem(ks: seq<Conflicts.SourceConflict>, outcome: ConflictOutcome, item: nat): seq<Conflicts.SourceConflict> {
    if outcome.conflict.None? || outcome.conflict.value >= |ks| || outcome.linked == Some(item) then ks
    else ks[outcome.conflict.value := ks[outcome.conflict.value].(reviewItem := Some(item))]
  }

  /** releaseSuperseded: a candidate the queue stopped naming is rejected if it was parked for review. */
  function ReleaseSuperseded(db: Db, s: Option<Subject>): (Db, seq<Event>) {
    if s.Some? && s.value.CandidateSubject? && s.value.candidate < |db.rows|
      && db.rows[s.value.candidate].c.state == HumanReviewRequired
    then (UpdateStates(db, s.value.candidate, [Rejected]), [CandidateRejected(s.value.candidate)])
    else (db, [])
  }

  /** routeToReview: the tables after, the open item covering this run, and the events. */
  function RouteToReview(db: Db, id: nat, d: ReviewItem, source: string, a: Assessment, outcome: ConflictOutcome)
    : (Db, nat, seq<Event>)
  {
    var existing := OpenItemFor(db.items, outcome, d.subject);
    if existing.None? then
      (db.(items := db.items + [d], conflicts := LinkReviewItem(db.conflicts, outcome, |db.items|)), |db.items|, [])
    else
      var (i, moves) := ChooseItem(db.items, existing.value, d, id, source, a);
      var stored := db.items[i];
      var target := if moves then stored.(kind := d.kind, subject := d.subject) else stored;
      var routed := db.(items := db.items[i := Redescribed(target, d)],
                        conflicts := LinkReviewItem(db.conflicts, outcome, i));
      var (released, events) := ReleaseSuperseded(routed, if moves then Some(stored.subject) else None);
      (released, i, events)
  }

  // ---------------------------------------------------------------------------------------------
  // Validation
  // ---------------------------------------------------------------------------------------------

  /** SetResolvedProduct, for a candidate that arrived without one. */
  function SettleProduct(c: Candidate, m: Match): Candidate {
    if c.product == "" && m.product != "" then c.(product := m.product, matched := Unique) else c
  }

  function StateFor(decision: Gates.Outcome): State {
    match decision
    case Passed => Validated
    case ReviewRequired => HumanReviewRequired
    case RejectedBy => Rejected
  }

  function EventFor(decision: Gates.Outcome, id: nat): Event {
    match decision
    case Passed => CandidateValidated(id)
    case ReviewRequired => HumanReviewRequested(id)
    case RejectedBy => CandidateRejected(id)
  }

  /** Everything a validation derives before its transaction. */
  datatype Findings = Findings(src: Source, found: Match, a: Assessment, context: Gates.Context, verdict: Gates.Verdict)

  function Inspect(db: Db, w: World, now: int, id: nat): (r: Result<Findings, Error>)
    ensures r.Success? ==> id < |db.rows| && db.rows[id].c.source in w.sources
  {
    if id >= |db.rows| || db.rows[id].c.source !in w.sources then Failure(NotFound)
    else
      var c := db.rows[id].c;
      var src := w.sources[c.source];
      var m := ResolveProduct(w, src, c);
      var a := Assess(db.observations, w, c, id, src, if c.product == "" then m.product else c.product, now);
      var ctx := BuildContext(db.catalog, w, c, src, m, a, now);
      Success(Findings(src, m, a, ctx, Gates.Judge(c, ctx)))
  }

  /** The candidate's row after the run: product settled, verdict recorded, state walked. */
  function JudgedRow(r: Row, f: Findings): Row {
    var settled := r.(c := SettleProduct(r.c, f.found), verdict := f.verdict.results);
    Walked(settled, PathTo(settled.c.state, StateFor(f.verdict.decision)))
  }

  /** All the run writes except the review queue. */
  function Judged(db: Db, f: Findings, rec: Reconciled, id: nat, now: int): Db
    requires id < |db.rows| && f.context.duplicate == DuplicateOf(db.catalog, db.rows[id].c)
  {
    Db(db.rows[id := JudgedRow(db.rows[id], f)],
      if f.context.duplicate.Some? then Releases.Touch(db.catalog, f.context.duplicate.value, now) else db.catalog,
      rec.observations, rec.conflicts, db.items,
      if f.verdict.decision == Gates.Passed then db.jobs + {id} else db.jobs,
      db.audit)
  }

  function Reconcile(db: Db, w: World, now: int, id: nat): Result<Reconciled, Error>
    requires Inspect(db, w, now, id).Success?
  {
    ReconcileConflict(db.observations, db.conflicts, Inspect(db, w, now, id).value.a, now)
  }

  predicate NeedsItem(f: Findings, rec: Reconciled) {
    f.verdict.decision == Gates.ReviewRequired || rec.outcome.conflict.Some?
  }

  /** The event of the walk, when there was one. */
  function Announced(db: Db, f: Findings, id: nat): seq<Event>
    requires id < |db.rows|
  {
    if |PathTo(db.rows[id].c.state, StateFor(f.verdict.decision))| > 0 then [EventFor(f.verdict.decision, id)] else []
  }

  datatype Validation = Validation(
    db: Db, events: seq<Event>, decision: Gates.Outcome, conflict: Option<nat>, item: Option<nat>)

  /** ValidateCandidate.Execute as one atomic step; a failure changes nothing. */
  function Validate(db: Db, w: World, now: int, id: nat): Result<Validation, Error> {
    var inspected := Inspect(db, w, now, id);
    if inspected.Failure? then Failure(inspected.error)
    else
      var f := inspected.value;
      var reconciled := Reconcile(db, w, now, id);
      if reconciled.Failure? then Failure(reconciled.error)
      else
        var rec := reconciled.value;
        var judged := Judged(db, f, rec, id, now);
        var c := judged.rows[id].c;
        var moved := Announced(db, f, id);
        if !NeedsItem(f, rec) then
          Success(Validation(judged, rec.events + moved, f.verdict.decision, rec.outcome.conflict, None))
        else
          var d := DesiredItem(w, c, id, f.src, f.verdict, f.a, rec.outcome, now);
          var (routed, item, events) := RouteToReview(judged, id, d, c.source, f.a, rec.outcome);
          Success(Validation(routed, rec.events + moved + events, f.verdict.decision, rec.outcome.conflict, Some(item)))
  }

  /** The parts a successful validation is made of, and how they fit together. */
  lemma ValidationAnatomy(db: Db, w: World, now: int, id: nat)
    requires Validate(db, w, now, id).Success?
    ensures Inspect(db, w, now, id).Success? && Reconcile(db, w, now, id).Success?
    ensures var f, rec, v := Inspect(db, w, now, id).value, Reconcile(db, w, now, id).value, Validate(db, w, now, id).value;
      var c := db.rows[id].c;
      var settled := SettleProduct(c, f.found);
      var judged := Judged(db, f, rec, id, now);
      && id < |db.rows| && f.context.duplicate == DuplicateOf(db.catalog, c)
      && ReconcileConflict(db.observations, db.conflicts, f.a, now) == Success(rec)
      && c.source in w.sources && f.src == w.sources[c.source]
      && f.found == ResolveProduct(w, f.src, c)
      && f.a == Assess(db.observations, w, c, id, f.src, settled.product, now)
      && f.context == BuildContext(db.catalog, w, c, f.src, f.found, f.a, now)
      && f.verdict == Gates.Judge(c, f.context)
      && v.decision == f.verdict.decision && v.conflict == rec.outcome.conflict && (v.item.Some? <==> NeedsItem(f, rec))
      && (!NeedsItem(f, rec) ==> v.db == judged && v.events == rec.events + Announced(db, f, id))
      && (NeedsItem(f, rec) ==>
            var (routed, item, events) := RouteToReview(judged, id,
              DesiredItem(w, judged.rows[id].c, id, f.src, f.verdict, f.a, rec.outcome, now), c.source, f.a, rec.outcome);
            v.db == routed && v.item == Some(item) && v.events == rec.events + Announced(db, f, id) + events)
  {
    hide ReconcileConflict, RouteToReview, DesiredItem, Gates.Judge, ResolveProduct, Assess;
  }

  /** A row still describes the same claim: only an absent product may have been filled in. */
  predicate SameClaim(r: Row, r': Row) {
    && r'.c.source == r.c.source && r'.c.channel == r.c.channel && r'.c.version == r.c.version
    && (r'.c.product == r.c.product || r.c.product == "")
  }

  /** Routing writes items, links and a released candidate's state, and nothing else. */
  lemma RoutingOnlyMovesQueue(db: Db, id: nat, d: ReviewItem, source: string, a: Assessment, outcome: ConflictOutcome)
    ensures var next := RouteToReview(db, id, d, source, a, outcome).0;
      && next.catalog == db.catalog && next.jobs == db.jobs && next.audit == db.audit
      && next.observations == db.observations && |next.rows| == |db.rows|
      && (forall x | 0 <= x < |db.rows| :: next.rows[x].verdict == db.rows[x].verdict)
      && (forall x | 0 <= x < |db.rows| :: SameClaim(db.rows[x], next.rows[x]) && next.rows[x].c.product == db.rows[x].c.product)
  {
    hide OpenItemFor, ChooseItem;
  }

  /** What validation leaves of every row: the same claim, and the assessed product on the candidate's own. */
  lemma RowsAfterValidation(db: Db, w: World, now: int, id: nat)
    requires Validate(db, w, now, id).Success?
    ensures var next := Validate(db, w, now, id).value.db;
      && |next.rows| == |db.rows| && (forall x | 0 <= x < |db.rows| :: SameClaim(db.rows[x], next.rows[x]))
      && id < |db.rows| && Inspect(db, w, now, id).Success?
      && next.rows[id].c.product == SettleProduct(db.rows[id].c, Inspect(db, w, now, id).value.found).product
  {
    hide Validate, Inspect, Reconcile, ReconcileConflict, Gates.Judge, DesiredItem, BuildContext, RouteToReview, ResolveProduct, PathTo;
    ValidationAnatomy(db, w, now, id);
    var f, rec := Inspect(db, w, now, id).value, Reconcile(db, w, now, id).value;
    var judged := Judged(db, f, rec, id, now);
    if NeedsItem(f, rec) {
      RoutingOnlyMovesQueue(judged, id, DesiredItem(w, judged.rows[id].c, id, f.src, f.verdict, f.a, rec.outcome, now),
        db.rows[id].c.source, f.a, rec.outcome);
    }
  }

  /** A candidate whose source may not be collected from is rejected, so it never waits for a human. */
  lemma OnlyEligibleReachReview(db: Db, w: World, now: int, id: nat)
    requires Inspect(db, w, now, id).Success? && Inspect(db, w, now, id).value.verdict.decision != Gates.RejectedBy
    ensures MayCollect(Inspect(db, w, now, id).value.src)
  {
    var f := Inspect(db, w, now, id).value;
    Gates.VerdictMeaning(db.rows[id].c, f.context);
    assert Gates.OutcomeOf(Gates.SourceEligible, db.rows[id].c, f.context) != Gates.RejectedBy;
  }

  lemma PayloadNamesConflict(results: seq<Gates.GateResult>, outcome: ConflictOutcome, a: Assessment)
    requires outcome.conflict.Some? ==> a.Assessed?
    ensures ReviewPayload(results, outcome, a).conflict == outcome.conflict
    ensures outcome.conflict.Some? ==> a.subject.o.candidate in ReviewPayload(results, outcome, a).candidates
  {
  }

  /** Only an assessed claim yields a conflict, and only a conflict has a linked item. */
  lemma OutcomeShape(os: seq<Conflicts.Observation>, ks: seq<Conflicts.SourceConflict>, a: Assessment, now: int)
    requires ReconcileConflict(os, ks, a, now).Success?
    ensures var outcome := ReconcileConflict(os, ks, a, now).value.outcome;
      if outcome.conflict.Some? then a.Assessed? && a.subject.eligible else outcome.linked.None?
  {
  }

  // ---------------------------------------------------------------------------------------------
  // Publication
  // ---------------------------------------------------------------------------------------------

  datatype Publication = Publication(db: Db, release: Option<nat>, published: bool)

  /** The release a candidate becomes. */
  function ReleaseFor(c: Candidate, id: nat, src: Source, now: int): Releases.Release {
    Releases.Release(src.vendor, c.version, EffectiveType(c), c.channel, c.releaseDate,
      if c.discoveredAt == 0 then now else c.discoveredAt, now, now, id, c.evidence, c.confidence, false)
  }

  /** What publishing writes: the catalogue, the candidate's last state and its link to the release. */
  function Committed(db: Db, id: nat, rel: Releases.Release): Db
    requires id < |db.rows|
  {
    var moved := UpdateStates(db, id, [Published]);
    var row := moved.rows[id];
    moved.(catalog := Releases.Publish(db.catalog, rel, row.c.product),
           rows := moved.rows[id := row.(c := row.c.(publishedRelease := Some(|db.catalog.releases|)))])
  }

  /** PublishRelease.Execute. */
  function PublishRelease(db: Db, w: World, now: int, id: nat): Result<Publication, Error> {
    if id >= |db.rows| then Failure(NotFound)
    else
      var c := db.rows[id].c;
      if c.state == Published then Success(Publication(db, c.publishedRelease, false))
      else if c.state !in {Validated, HumanReviewRequired} then Failure(InvalidTransition)
      else if c.product == "" then Failure(Invalid)
      else if c.source !in w.sources then Failure(NotFound)
      else if !CompliancePermitsCollection(w.sources[c.source]) then Failure(NotPermitted)
      else
        var rel := ReleaseFor(c, id, w.sources[c.source], now);
        if !Releases.ValidRelease(rel) || Blank(c.product) then Failure(Invalid)
        else
          Success(Publication(Committed(db, id, rel), Some(|db.catalog.releases|), true))
  }
}
