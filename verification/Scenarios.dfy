/**
 Short runs of two sources that disagree about one product: a page that goes stale, an item nobody
 can decide, and a parked candidate nobody is shown any more, after a decision or after a validation.
 */
module Scenarios {
  import opened Wrappers
  import opened Text
  import opened Candidates
  import opened Tables
  import PartialDates
  import Gates
  import Conflicts
  import Releases
  import Ingest
  import Review
  import Coverage
  import Parking
  import Observations
  import opened Runs

  function SourceOf(quality: Conflicts.QualityClass, official: bool): Source {
    Source("vendor", true, official, quality, Active, Allowed, Approved)
  }

  /** Two sources: b is the manufacturer's own, and a is too or is a community's. */
  function Pair(equal: bool): World {
    World(map["a" := SourceOf(if equal then Conflicts.OfficialManufacturer else Conflicts.TrustedCommunity, equal),
              "b" := SourceOf(Conflicts.OfficialManufacturer, true)],
      (vendor, hint) => [], (previous, version) => false,
      (gate, q, o, confidence, kind, conflicted, product) => 0, 0.0, 0, 0)
  }

  const ONE: VersionString := (assert !IsSpace("1.0"[0]); Version("1.0", "1.0"))
  const TWO: VersionString := (assert !IsSpace("2.0"[0]); Version("2.0", "2.0"))
  const THREE: VersionString := (assert !IsSpace("3.0"[0]); Version("3.0", "3.0"))

  /** What a collector hands over. */
  function Collected(key: string, version: VersionString): Candidate {
    Candidate("", key, None, "product", "", Unmatched, version, Some(Firmware), None, "",
      PartialDates.UNKNOWN_DATE, 1.0, Discovered, None, 0)
  }

  /** The candidate that becomes, in row x, by the time it is in a state. */
  function Stored(source: string, key: string, version: VersionString, x: nat, at: int, state: State): Candidate {
    Collected(key, version).(source := source, evidence := Some(x), discoveredAt := at, state := state)
  }

  function Claimed(source: string, version: VersionString, x: nat, at: int, since: int): Conflicts.Observation {
    Conflicts.Observation(source, "product", "", version.raw, version.normalized, PartialDates.UNKNOWN_DATE, x, at, since)
  }

  predicate Plain(db: Db, id: nat) {
    && db.catalog == Releases.Catalog([], [])
    && id < |db.rows| && db.rows[id].c.source in {"a", "b"} && ProperVersion(db.rows[id].c.version)
    && db.rows[id].c == Stored(db.rows[id].c.source, db.rows[id].c.dedupeKey, db.rows[id].c.version, id,
                               db.rows[id].c.discoveredAt, db.rows[id].c.state)
  }

  /** With nothing else to object to, only a source that is not official or a disagreement keeps a candidate from passing. */
  lemma PlainDecision(c: Candidate, ctx: Gates.Context)
    requires ProperVersion(c.version) && !c.releaseDate.Known() && c.evidence.Some? && c.confidence == 1.0
    requires ctx.productResolved && !ctx.productAmbiguous && ctx.sourceEligible && ctx.duplicate.None? && !ctx.implausible
    requires ctx.evidencePresent && ctx.threshold == 0.0 && ctx.applicabilityKnown
    ensures Gates.Judge(c, ctx).decision == if ctx.sourceOfficial && ctx.conflicting == [] then Gates.Passed else Gates.ReviewRequired
  {
    hide Gates.Judge, Gates.RunGates;
    Gates.VerdictMeaning(c, ctx);
    assert c.version.raw != "";
    forall g: Gates.Gate ensures Gates.OutcomeOf(g, c, ctx) != Gates.RejectedBy {}
    if !ctx.sourceOfficial { assert Gates.OutcomeOf(Gates.ConfidenceThreshold, c, ctx) == Gates.ReviewRequired; }
    if ctx.conflicting != [] { assert Gates.OutcomeOf(Gates.MultiSourceAgree, c, ctx) == Gates.ReviewRequired; }
  }

  lemma PlainFindings(db: Db, w: World, now: int, id: nat, equal: bool)
    requires Plain(db, id) && w == Pair(equal)
    ensures Ingest.Inspect(db, w, now, id).Success?
    ensures var f, c := Ingest.Inspect(db, w, now, id).value, db.rows[id].c;
      && f.src == w.sources[c.source] && f.found.product == "" && f.context.duplicate.None?
      && f.a == Ingest.Assess(db.observations, w, c, id, f.src, "product", now) && f.a.Assessed?
      && f.verdict.decision == if f.src.official && f.a.verdict.status != Conflicts.Unresolved
                               then Gates.Passed else Gates.ReviewRequired
  {
    hide Gates.Judge, Conflicts.AssessSourceConflict, ClaimsFor, OwnClaim;
    var f := Ingest.Inspect(db, w, now, id).value;
    assert Ingest.DuplicateOf(db.catalog, db.rows[id].c) == None;
    PlainDecision(db.rows[id].c, f.context);
    VerdictOf(f.a.subject, f.a.others);
  }

  /** What a validation leaves of a plain candidate's tables before the queue. */
  predicate Settled(db: Db, w: World, now: int, id: nat, judged: Db)
    requires Ingest.Inspect(db, w, now, id).Success? && Ingest.Reconcile(db, w, now, id).Success? && id < |db.rows|
  {
    var f, rec := Ingest.Inspect(db, w, now, id).value, Ingest.Reconcile(db, w, now, id).value;
    var c := db.rows[id].c;
    && |judged.rows| == |db.rows| && judged.catalog == db.catalog && judged.items == db.items
    && judged.observations == rec.observations && judged.conflicts == rec.conflicts
    && (forall x | 0 <= x < |db.rows| && x != id :: judged.rows[x] == db.rows[x])
    && judged.rows[id].c == c.(state := EndOf(c.state, PathTo(c.state, Ingest.StateFor(f.verdict.decision))))
  }

  /** A validation of a plain candidate: what it settles, and the item it describes the rest in. */
  lemma PlainValidation(db: Db, w: World, now: int, id: nat, equal: bool) returns (judged: Db, d: ReviewItem)
    requires Plain(db, id) && w == Pair(equal) && Observations.ObservationInvariant(db) && now != 0
    ensures Ingest.Validate(db, w, now, id).Success?
    ensures Ingest.Inspect(db, w, now, id).Success? && Ingest.Reconcile(db, w, now, id).Success?
    ensures Settled(db, w, now, id, judged)
    ensures var f, rec := Ingest.Inspect(db, w, now, id).value, Ingest.Reconcile(db, w, now, id).value;
      && Ingest.ReconcileConflict(db.observations, db.conflicts, f.a, now) == Success(rec)
      && var next := Ingest.Validate(db, w, now, id).value.db;
      && (!Ingest.NeedsItem(f, rec) ==> next == judged)
      && (Ingest.NeedsItem(f, rec) ==>
            && next == Ingest.RouteToReview(judged, id, d, db.rows[id].c.source, f.a, rec.outcome).0
            && IsOpen(d) && d.payload == Ingest.ReviewPayload(f.verdict.results, rec.outcome, f.a)
            && (f.verdict.decision == Gates.ReviewRequired ==> d.subject == CandidateSubject(id)))
  {
    hide Gates.Judge, Ingest.RouteToReview, Ingest.ReviewPayload, Ingest.Priority, Ingest.ReconcileConflict, Ingest.Assess, PathTo,
      Ingest.Inspect, Ingest.Validate, Observations.ObservationInvariant, Ingest.DuplicateOf;
    assert !IsSpace("product"[0]);
    PlainFindings(db, w, now, id, equal);
    Observations.ValidationSucceeds(db, w, now, id);
    Ingest.ValidationAnatomy(db, w, now, id);
    var f, rec := Ingest.Inspect(db, w, now, id).value, Ingest.Reconcile(db, w, now, id).value;
    judged := Ingest.Judged(db, f, rec, id, now);
    if Ingest.NeedsItem(f, rec) {
      d := Ingest.DesiredItem(w, judged.rows[id].c, id, f.src, f.verdict, f.a, rec.outcome, now);
    } else {
      d := ReviewItem(Gates.LowConfidence, CandidateSubject(id), "", "", Payload(None, None, [], [], {}), 0, Open, "", "", 0, now);
    }
  }

  // ---------------------------------------------------------------------------------------------
  // What the two claims come to
  // ---------------------------------------------------------------------------------------------

  lemma ReadClaims(o: Conflicts.Observation, p: Conflicts.Observation, w: World)
    requires o.product == p.product == "product" && o.channel == p.channel == "" && o.source == "a" && p.source == "b"
    requires "a" in w.sources && "b" in w.sources
    ensures ClaimsFor([], w, "product", "") == []
    ensures ClaimsFor([o], w, "product", "") == [Joined(o, w)]
    ensures ClaimsFor([o, p], w, "product", "") == [Joined(o, w), Joined(p, w)]
    ensures OwnClaim([], "a") == None && OwnClaim([Joined(o, w)], "b") == None && OwnClaim([Joined(o, w), Joined(p, w)], "a") == Some(o)
  {
    assert [o][..0] == [] && [o, p][..1] == [o];
    assert "a" != "b";
  }

  /** A disagreement is unresolved exactly when somebody contests the subject from no lower a rank. */
  lemma VerdictOf(subject: Conflicts.Claim, others: seq<Conflicts.Claim>)
    ensures var v := Conflicts.AssessSourceConflict(subject, others);
      && (v.status == Conflicts.Unresolved <==> exists c | c in others :: Conflicts.Contests(subject, c, false))
      && (v.status == Conflicts.Unresolved <==> v.conflictingVersions != [])
  {
    Conflicts.VerdictMembers(subject, others);
  }

  const A_SAYS := Claimed("a", ONE, 0, 3, 3)
  const B_SAYS := Claimed("b", TWO, 1, 4, 4)

  /** The first source's candidate claims 1.0, the second's 2.0. */
  predicate Rows(db: Db, a: State, b: State) {
    && db.catalog == Releases.Catalog([], []) && |db.rows| >= 2
    && db.rows[0].c == A(a) && db.rows[1].c == B(b)
  }

  /** One open conflict of the product, linked to item 0, which is open and names it. */
  predicate InDispute(db: Db) {
    && |db.conflicts| == 1 && db.conflicts[0].open && db.conflicts[0].product == "product" && db.conflicts[0].channel == ""
    && db.conflicts[0].reviewItem == Some(0)
    && |db.items| == 1 && IsOpen(db.items[0]) && db.items[0].payload.conflict == Some(0)
  }

  lemma Literals()
    ensures "a" != "b" && "1.0" != "2.0" && "3.0" != "2.0" && ProperVersion(ONE) && ProperVersion(TWO) && ProperVersion(THREE)
  {
    assert "a"[0] != "b"[0] && "1.0"[0] != "2.0"[0] && "3.0"[0] != "2.0"[0];
    assert !IsSpace("1.0"[0]) && !IsSpace("2.0"[0]) && !IsSpace("3.0"[0]);
  }

  /** What the registry adds to the two claims. */
  lemma JoinedClaims(w: World, equal: bool)
    requires w == Pair(equal)
    ensures "a" in w.sources && "b" in w.sources
    ensures Joined(A_SAYS, w).o == A_SAYS && Joined(A_SAYS, w).eligible && Joined(B_SAYS, w).o == B_SAYS && Joined(B_SAYS, w).eligible
    ensures Joined(B_SAYS, w).quality == Conflicts.OfficialManufacturer == w.sources["b"].quality
    ensures Joined(A_SAYS, w).quality == w.sources["a"].quality
    ensures w.sources["a"].quality == if equal then Conflicts.OfficialManufacturer else Conflicts.TrustedCommunity
    ensures MayCollect(w.sources["a"]) && MayCollect(w.sources["b"]) && w.sources["b"].official && w.sources["a"].official == equal
  {
    Literals();
  }

  function A(state: State): Candidate { Stored("a", "a1", ONE, 0, 1, state) }

  function B(state: State): Candidate { Stored("b", "b1", TWO, 1, 2, state) }

  /** Nobody has said anything yet. */
  lemma AssessingFirst(w: World, equal: bool, c: Candidate)
    requires w == Pair(equal) && exists s :: c == A(s)
    ensures var r := Ingest.Assess([], w, c, 0, w.sources["a"], "product", 3);
      r.Assessed? && r.subject.o == A_SAYS && r.subject.eligible && r.recordable && r.verdict.status != Conflicts.Unresolved
  {
    Literals();
    JoinedClaims(w, equal);
    ReadClaims(A_SAYS, B_SAYS, w);
    hide ClaimsFor, OwnClaim, Conflicts.AssessSourceConflict, Joined, Pair, Blank, MayCollect;
    var r := Ingest.Assess([], w, c, 0, w.sources["a"], "product", 3);
    assert r.others == [];
    VerdictOf(r.subject, r.others);
  }

  /** Against the first source's claim of 1.0 alone, the second's 2.0 is in dispute unless it outranks it. */
  lemma LoneDispute(subject: Conflicts.Claim, other: Conflicts.Claim)
    requires subject.o == B_SAYS && other.o == A_SAYS && other.eligible
    ensures Conflicts.AssessSourceConflict(subject, [other]).status == Conflicts.Unresolved <==> !Conflicts.Below(subject, other)
  {
    Literals();
    VerdictOf(subject, [other]);
    hide Conflicts.AssessSourceConflict;
    assert other in [other] && Conflicts.Contests(subject, other, Conflicts.Below(subject, other));
  }

  /** The first source said 1.0. */
  lemma AssessingSecond(w: World, equal: bool, c: Candidate)
    requires w == Pair(equal) && exists s :: c == B(s)
    ensures var r := Ingest.Assess([A_SAYS], w, c, 1, w.sources["b"], "product", 4);
      && r.Assessed? && r.subject.o == B_SAYS && r.subject.eligible && r.recordable && r.others == [Joined(A_SAYS, w)]
      && (r.verdict.status == Conflicts.Unresolved <==> equal)
  {
    Literals();
    JoinedClaims(w, equal);
    ReadClaims(A_SAYS, B_SAYS, w);
    hide ClaimsFor, OwnClaim, Conflicts.AssessSourceConflict, Joined, Pair, Blank, MayCollect, Conflicts.Contests;
    var r := Ingest.Assess([A_SAYS], w, c, 1, w.sources["b"], "product", 4);
    LoneDispute(r.subject, Joined(A_SAYS, w));
  }

  /** Against the manufacturer's claim of 2.0, whoever says anything else has an open question. */
  lemma DisputeIff(subject: Conflicts.Claim, own: Conflicts.Claim, b: Conflicts.Claim)
    requires subject.o.source == own.o.source == "a" && b.o == B_SAYS && b.eligible && b.quality == Conflicts.OfficialManufacturer
    ensures Conflicts.AssessSourceConflict(subject, [own, b]).status == Conflicts.Unresolved <==> subject.o.normalized != "2.0"
  {
    var others := [own, b];
    Literals();
    VerdictOf(subject, others);
    hide Conflicts.AssessSourceConflict;
    assert others[1] == b && b in others;
    assert Conflicts.Contests(subject, b, false) <==> subject.o.normalized != "2.0";
    forall o | o in others && Conflicts.Contests(subject, o, false) ensures o == b {}
  }

  /** Both have spoken, and the first source speaks again: there is a dispute unless it now says what the second said. */
  lemma AssessingAgain(w: World, at: int, now: int, equal: bool, c: Candidate, x: nat)
    requires w == Pair(equal) && at < now && c.source == "a" && c == Stored("a", c.dedupeKey, c.version, x, c.discoveredAt, c.state)
    requires ProperVersion(c.version)
    ensures var first := Claimed("a", ONE, 0, at, 3);
      var r := Ingest.Assess([first, B_SAYS], w, c, x, w.sources["a"], "product", now);
      && r.Assessed? && r.subject.o == Claimed("a", c.version, x, now, 3) && r.subject.eligible && r.recordable
      && r.others == [Joined(first, w), Joined(B_SAYS, w)]
      && (r.verdict.status == Conflicts.Unresolved <==> c.version.normalized != "2.0")
  {
    var first := Claimed("a", ONE, 0, at, 3);
    Literals();
    JoinedClaims(w, equal);
    JoinedIs(first, w);
    ReadClaims(first, B_SAYS, w);
    hide ClaimsFor, OwnClaim, Conflicts.AssessSourceConflict, Joined, Pair, Blank, MayCollect;
    var r := Ingest.Assess([first, B_SAYS], w, c, x, w.sources["a"], "product", now);
    DisputeIff(r.subject, Joined(first, w), Joined(B_SAYS, w));
  }

  lemma JoinedIs(o: Conflicts.Observation, w: World)
    ensures Joined(o, w).o == o
  {
  }

  lemma Recorded(first: Conflicts.Observation, o: Conflicts.Observation)
    requires SameKey(first, A_SAYS) && SameKey(o, A_SAYS) && o.firstObservedAt == first.firstObservedAt
    ensures RecordObservation([], A_SAYS) == [A_SAYS]
    ensures RecordObservation([A_SAYS], B_SAYS) == [A_SAYS, B_SAYS]
    ensures RecordObservation([first, B_SAYS], o) == [o, B_SAYS]
  {
    Literals();
    assert FindObservation([A_SAYS], B_SAYS) == None;
    assert [first, B_SAYS][..1] == [first] && FindObservation([first], o) == Some(0);
    assert FindObservation([first, B_SAYS], o) == Some(0);
  }

  /** Where a first verdict leads an extracted candidate, and a later one the one validated or parked before. */
  lemma Walks()
    ensures EndOf(Extracted, PathTo(Extracted, Validated)) == Validated
    ensures EndOf(Extracted, PathTo(Extracted, HumanReviewRequired)) == HumanReviewRequired
    ensures EndOf(Validated, PathTo(Validated, HumanReviewRequired)) == HumanReviewRequired
    ensures EndOf(HumanReviewRequired, PathTo(HumanReviewRequired, HumanReviewRequired)) == HumanReviewRequired
  {
    PathToArrivesOrStays(Extracted, Validated);
    PathToArrivesOrStays(Extracted, HumanReviewRequired);
  }

  // ---------------------------------------------------------------------------------------------
  // The validations
  // ---------------------------------------------------------------------------------------------

  /** The first source's candidate passes if the source is official and is parked, with an item of its own, if not. */
  lemma FirstValidated(db: Db, equal: bool)
    requires Rows(db, Extracted, Extracted) && db.observations == [] && db.conflicts == [] && db.items == []
    requires Observations.ObservationInvariant(db)
    ensures Ingest.Validate(db, Pair(equal), 3, 0).Success?
    ensures var next := Ingest.Validate(db, Pair(equal), 3, 0).value.db;
      && Rows(next, if equal then Validated else HumanReviewRequired, Extracted) && |next.rows| == |db.rows|
      && next.observations == [A_SAYS] && next.conflicts == []
      && (equal ==> next.items == [])
      && (!equal ==> |next.items| == 1 && IsOpen(next.items[0]) && next.items[0].subject == CandidateSubject(0)
                     && next.items[0].payload.conflict.None?)
  {
    hide Ingest.Inspect, Ingest.Validate, Ingest.Assess, Observations.ObservationInvariant, PathTo, Pair, Blank, RecordObservation,
      Conflicts.AssessSourceConflict;
    var w := Pair(equal);
    JoinedClaims(w, equal);
    var judged, d := PlainValidation(db, w, 3, 0, equal);
    PlainFindings(db, w, 3, 0, equal);
    AssessingFirst(w, equal, db.rows[0].c);
    Recorded(A_SAYS, A_SAYS);
    Walks();
  }

  /** The second source's candidate passes if it outranks the first, and otherwise opens a conflict and asks for a human. */
  lemma SecondValidated(db: Db, equal: bool, a: State)
    requires Rows(db, a, Extracted) && db.observations == [A_SAYS] && db.conflicts == [] && (equal ==> db.items == [])
    requires Observations.ObservationInvariant(db)
    ensures Ingest.Validate(db, Pair(equal), 4, 1).Success?
    ensures var next := Ingest.Validate(db, Pair(equal), 4, 1).value.db;
      && Rows(next, a, if equal then HumanReviewRequired else Validated) && |next.rows| == |db.rows|
      && next.observations == [A_SAYS, B_SAYS]
      && (!equal ==> next.items == db.items && next.conflicts == [])
      && (equal ==> InDispute(next) && next.items[0].subject == CandidateSubject(1))
  {
    hide Ingest.Inspect, Ingest.Validate, Ingest.Assess, Observations.ObservationInvariant, PathTo, Pair, Blank, RecordObservation,
      Conflicts.AssessSourceConflict, Conflicts.ValidConflict, MergeParticipants, SortedSet;
    var w := Pair(equal);
    JoinedClaims(w, equal);
    var judged, d := PlainValidation(db, w, 4, 1, equal);
    PlainFindings(db, w, 4, 1, equal);
    AssessingSecond(w, equal, db.rows[1].c);
    Recorded(A_SAYS, A_SAYS);
    Walks();
  }

  /** A candidate of the first source that contradicts the second's is in dispute, on the item that is open. */
  lemma Disputed(db: Db, at: int, now: int, equal: bool, x: nat)
    requires Plain(db, x) && db.rows[x].c.source == "a" && db.rows[x].c.version.normalized != "2.0"
    requires db.rows[x].c.state in {Extracted, Validated, HumanReviewRequired}
    requires db.observations == [Claimed("a", ONE, 0, at, 3), B_SAYS] && 3 <= at < now
    requires if equal then InDispute(db) && db.items[0].subject == CandidateSubject(1)
      else x == 0 && db.conflicts == [] && |db.items| == 1 && IsOpen(db.items[0]) && db.items[0].subject == CandidateSubject(0)
    requires Observations.ObservationInvariant(db)
    ensures Ingest.Validate(db, Pair(equal), now, x).Success?
    ensures var next := Ingest.Validate(db, Pair(equal), now, x).value.db;
      && |next.rows| == |db.rows| && next.rows[x].c == db.rows[x].c.(state := HumanReviewRequired)
      && (forall y | 0 <= y < |db.rows| && y != x :: next.rows[y] == db.rows[y])
      && next.catalog == db.catalog && next.observations == [Claimed("a", db.rows[x].c.version, x, now, 3), B_SAYS]
      && InDispute(next) && next.items[0].subject == db.items[0].subject && next.items[0].payload.candidates == {x, 1}
  {
    hide Ingest.Inspect, Ingest.Validate, Ingest.Assess, Observations.ObservationInvariant, PathTo, Pair, Blank, RecordObservation,
      Conflicts.AssessSourceConflict, Conflicts.ValidConflict, MergeParticipants, SortedSet, Joined, Stored,
      Ingest.ReconcileConflict, Ingest.DisputingCandidates, Ingest.RouteToReview;
    var w := Pair(equal);
    JoinedClaims(w, equal);
    var judged, d := PlainValidation(db, w, now, x, equal);
    PlainFindings(db, w, now, x, equal);
    AssessingAgain(w, at, now, equal, db.rows[x].c, x);
    Walks();
    var a := Ingest.Inspect(db, w, now, x).value.a;
    DisputeReconciled(db, a, Claimed("a", ONE, 0, at, 3), now);
    DisputingIs(a, x, at, w);
    DisputeRouted(judged, x, d, a, Ingest.Reconcile(db, w, now, x).value.outcome);
  }

  /** The one open item is described again, about whom it was. */
  lemma DisputeRouted(db: Db, id: nat, d: ReviewItem, a: Ingest.Assessment, outcome: Ingest.ConflictOutcome)
    requires |db.items| == 1 && IsOpen(db.items[0]) && |db.conflicts| == 1 && outcome.conflict == Some(0)
    requires outcome.linked == Some(0) || (outcome.linked.None? && d.subject == db.items[0].subject)
    requires db.conflicts[0].reviewItem == outcome.linked
    requires Ingest.StillInDispute(db.items[0].subject, d.subject, id, "a", a)
    ensures Ingest.RouteToReview(db, id, d, "a", a, outcome).0
      == db.(items := [Ingest.Redescribed(db.items[0], d)], conflicts := [db.conflicts[0].(reviewItem := Some(0))])
  {
  }

  lemma DisputeReconciled(db: Db, a: Ingest.Assessment, first: Conflicts.Observation, now: int)
    requires a.Assessed? && a.recordable && a.subject.eligible && a.verdict.status == Conflicts.Unresolved
    requires db.observations == [first, B_SAYS] && SameKey(first, A_SAYS)
    requires SameKey(a.subject.o, A_SAYS) && a.subject.o.firstObservedAt == first.firstObservedAt
    requires db.conflicts == [] || InDispute(db)
    requires Ingest.ReconcileConflict(db.observations, db.conflicts, a, now).Success?
    ensures var rec := Ingest.ReconcileConflict(db.observations, db.conflicts, a, now).value;
      && rec.observations == [a.subject.o, B_SAYS]
      && rec.outcome == Ingest.ConflictOutcome(Some(0), if db.conflicts == [] then None else Some(0))
      && |rec.conflicts| == 1 && rec.conflicts[0].open && rec.conflicts[0].product == "product" && rec.conflicts[0].channel == ""
      && rec.conflicts[0].reviewItem == rec.outcome.linked
  {
    hide RecordObservation, Conflicts.ValidConflict, MergeParticipants;
    Recorded(first, a.subject.o);
  }

  lemma DisputingIs(a: Ingest.Assessment, x: nat, at: int, w: World)
    requires a.Assessed? && a.subject.o.candidate == x && a.subject.o.source == "a"
    requires a.others == [Joined(Claimed("a", ONE, 0, at, 3), w), Joined(B_SAYS, w)] && Joined(B_SAYS, w).eligible
    ensures Ingest.DisputingCandidates(a) == {x, 1}
    ensures Joined(B_SAYS, w) in a.others && B_SAYS.source != "a"
  {
    Literals();
    assert a.others[1] in a.others;
  }

  /** The first source's next candidate says what the second said: the conflict is closed, and its item left as it was. */
  lemma Agreed(db: Db, now: int, x: nat)
    requires Plain(db, x) && db.rows[x].c.source == "a" && db.rows[x].c.version == TWO
    requires db.observations == [A_SAYS, B_SAYS] && now > 4 && InDispute(db)
    requires Observations.ObservationInvariant(db)
    ensures Ingest.Validate(db, Pair(true), now, x).Success?
    ensures var next := Ingest.Validate(db, Pair(true), now, x).value.db;
      && next.items == db.items && |next.conflicts| == 1 && !next.conflicts[0].open
  {
    hide Ingest.Inspect, Ingest.Validate, Ingest.Assess, Observations.ObservationInvariant, PathTo, Pair, Blank, RecordObservation,
      Conflicts.AssessSourceConflict, Conflicts.ValidConflict, MergeParticipants, SortedSet, Joined;
    var w := Pair(true);
    JoinedClaims(w, true);
    var judged, d := PlainValidation(db, w, now, x, true);
    PlainFindings(db, w, now, x, true);
    AssessingAgain(w, 3, now, true, db.rows[x].c, x);
  }

  // ---------------------------------------------------------------------------------------------
  // The runs
  // ---------------------------------------------------------------------------------------------

  const INPUT := Review.Input("reviewer", true, "no longer offered")

  /** Each source's candidate is collected and validated once. */
  function Opening(equal: bool): seq<Delivery> {
    [Extraction("a", Collected("a1", ONE), 1), Extraction("b", Collected("b1", TWO), 2),
     ValidationJob(Pair(equal), 3, 0), ValidationJob(Pair(equal), 4, 1)]
  }

  lemma Then(es: seq<Delivery>, e: Delivery)
    ensures Run(es + [e]) == Step(Run(es), e)
  {
    assert (es + [e])[..|es|] == es;
  }

  /** One more candidate of a source that has none under this key. */
  lemma Collecting(db: Db, source: string, key: string, version: VersionString, now: int)
    requires !Blank(source) && !Blank(key) && ProperVersion(version)
    requires forall i | 0 <= i < |db.rows| :: db.rows[i].c.source != source || db.rows[i].c.dedupeKey != key
    ensures Step(db, Extraction(source, Collected(key, version), now))
      == db.(rows := db.rows + [Row(Stored(source, key, version, |db.rows|, now, Extracted), [], [Extracted])])
  {
    hide Blank;
    assert version.raw != "" by { NotBlankIsNotEmpty(version.raw); }
  }

  lemma NotBlankIsNotEmpty(s: string)
    requires !Blank(s)
    ensures s != ""
  {
  }

  lemma Keys()
    ensures !Blank("a") && !Blank("b") && !Blank("a1") && !Blank("b1") && !Blank("a2") && !Blank("a3")
    ensures "a" != "b" && "a1" != "a2" && "a1" != "a3"
  {
    assert !IsSpace("a"[0]) && !IsSpace("b"[0]) && !IsSpace("a1"[0]) && !IsSpace("b1"[0]) && !IsSpace("a2"[0]) && !IsSpace("a3"[0]);
    assert "a"[0] != "b"[0] && "a1"[1] != "a2"[1] && "a1"[1] != "a3"[1];
  }

  lemma BothCollected(equal: bool)
    ensures var db := Run(Opening(equal)[..2]);
      Rows(db, Extracted, Extracted) && |db.rows| == 2 && db.observations == [] && db.conflicts == [] && db.items == []
  {
    hide Step, Blank, Pair;
    var es := Opening(equal);
    Literals();
    Keys();
    assert es[..0] == [] && es[..0] + [es[0]] == es[..1] && es[..1] + [es[1]] == es[..2];
    assert Run(es[..0]) == EMPTY;
    Then(es[..0], es[0]);
    Collecting(EMPTY, "a", "a1", ONE, 1);
    Then(es[..1], es[1]);
    Collecting(Run(es[..1]), "b", "b1", TWO, 2);
  }

  lemma Opened(equal: bool)
    ensures var db := Run(Opening(equal));
      && Rows(db, if equal then Validated else HumanReviewRequired, if equal then HumanReviewRequired else Validated)
      && |db.rows| == 2 && db.observations == [A_SAYS, B_SAYS] && Observations.ObservationInvariant(db)
      && (equal ==> InDispute(db) && db.items[0].subject == CandidateSubject(1))
      && (!equal ==> db.conflicts == [] && |db.items| == 1 && IsOpen(db.items[0]) && db.items[0].subject == CandidateSubject(0)
                     && db.items[0].payload.conflict.None?)
  {
    hide Ingest.Validate, Observations.ObservationInvariant, Run, Pair;
    var es := Opening(equal);
    BothCollected(equal);
    Observations.RunsKeepObservations(es[..2]);
    FirstValidated(Run(es[..2]), equal);
    Then(es[..2], es[2]);
    assert es[..2] + [es[2]] == es[..3] && es[..3] + [es[3]] == es;
    Observations.RunsKeepObservations(es[..3]);
    SecondValidated(Run(es[..3]), equal, if equal then Validated else HumanReviewRequired);
    Then(es[..3], es[3]);
    Observations.RunsKeepObservations(es);
  }

  /** A parked candidate can be rejected from any open page that is about it and names no closed conflict. */
  lemma Rejecting(db: Db, w: World, now: int, item: nat, seen: ReviewItem)
    requires item < |db.items| && IsOpen(db.items[item]) && IsOpen(seen)
    requires seen.subject.CandidateSubject? && Parking.Parked(db, seen.subject.candidate)
    requires Coverage.ConflictStillOpen(db, seen)
    ensures Review.Decide(db, w, now, item, seen, INPUT, false).Success?
  {
    assert !IsSpace("reviewer"[0]) && !IsSpace("no longer offered"[0]);
  }

  /** The page of item 0 as it is loaded after the opening, before the disagreement is seen from the first source's side. */
  function EarlyPage(): ReviewItem {
    var items := Run(Opening(false)).items;
    if |items| > 0 then items[0] else ReviewItem(Gates.LowConfidence, CandidateSubject(0), "", "", Payload(None, None, [], [], {}), 0, Open, "", "", 0, 0)
  }

  function StalePageRun(): seq<Delivery> { Opening(false) + [ValidationJob(Pair(false), 5, 0)] }

  lemma StaleQueue()
    ensures Coverage.QueueInvariant(Run(StalePageRun()))
  {
    hide Run, Coverage.QueueInvariant, Pair;
    var es := StalePageRun();
    forall i | 0 <= i < |es| ensures Coverage.PageStillApplies(Run(es[..i]), es[i]) {}
    Coverage.RunsKeepTheQueue(es);
  }

  /**
   A page goes stale: a community source's candidate is parked, the manufacturer's outranks it and passes,
   and looking at the first one again files the disagreement on the item whose page is already open.
   Rejecting from that page leaves the conflict open and no open item naming it.
   */
  lemma StalePageExample()
    ensures var db, seen := Run(StalePageRun()), EarlyPage();
      && Coverage.QueueInvariant(db) && Coverage.Covers(db, 0, 0) && seen.payload.conflict.None?
      && Review.Decide(db, Pair(false), 6, 0, seen, INPUT, false).Success?
      && var next := Run(StalePageRun() + [LateDecision(Pair(false), 6, 0, seen, INPUT, false)]);
         |next.conflicts| == 1 && next.conflicts[0].open && !Coverage.IsCovered(next, 0)
  {
    hide Run, Ingest.Validate, Pair, Coverage.QueueInvariant, Observations.ObservationInvariant, Opening, Review.Decide;
    var w := Pair(false);
    Opened(false);
    Disputed(Run(Opening(false)), 3, 5, false, 0);
    Then(Opening(false), ValidationJob(w, 5, 0));
    StaleQueue();
    var db, seen := Run(StalePageRun()), EarlyPage();
    Rejecting(db, w, 6, 0, seen);
    Coverage.StalePageUncoversConflict(db, w, 6, 0, 0, seen, INPUT, false);
    Coverage.DecisionAnatomy(db, w, 6, 0, seen, INPUT, false);
    Then(StalePageRun(), LateDecision(w, 6, 0, seen, INPUT, false));
  }

  function StrandedRun(): seq<Delivery> {
    Opening(true) + [Extraction("a", Collected("a2", TWO), 5), ValidationJob(Pair(true), 6, 2)]
  }

  lemma Stranded()
    ensures var db := Run(StrandedRun());
      && |db.items| == 1 && IsOpen(db.items[0]) && db.items[0].payload.conflict == Some(0)
      && |db.conflicts| == 1 && !db.conflicts[0].open
  {
    hide Run, Ingest.Validate, Ingest.Extract, Pair, Blank, Observations.ObservationInvariant, Opening;
    var first, second := Extraction("a", Collected("a2", TWO), 5), ValidationJob(Pair(true), 6, 2);
    Opened(true);
    Literals();
    Keys();
    var es := Opening(true) + [first];
    Then(Opening(true), first);
    Collecting(Run(Opening(true)), "a", "a2", TWO, 5);
    Observations.RunsKeepObservations(es);
    Agreed(Run(es), 6, 2);
    Then(es, second);
    assert StrandedRun() == es + [second];
  }

  /**
   An item is stranded: two manufacturers' sources disagree, and before anyone has decided, the first one
   moves to the second's version. The pipeline closes the conflict and leaves the item open, to be decided
   by nobody whatever they write.
   */
  lemma StrandedItemExample(w: World, now: int, input: Review.Input)
    ensures var db := Run(StrandedRun());
      && |db.items| == 1 && IsOpen(db.items[0]) && db.items[0].payload.conflict == Some(0)
      && |db.conflicts| == 1 && !db.conflicts[0].open
      && !Coverage.CanBeDecided(db, w, now, 0, input)
  {
    hide Run, StrandedRun, Blank;
    Stranded();
    Coverage.DecidableIff(Run(StrandedRun()), w, now, 0, input);
  }

  function DisputeRun(): seq<Delivery> { Opening(true) + [ValidationJob(Pair(true), 5, 0)] }

  /** Both candidates of a dispute are parked, and one item, about the second, is all that names either. */
  lemma BothParked()
    ensures var db := Run(DisputeRun());
      && Rows(db, HumanReviewRequired, HumanReviewRequired) && |db.rows| == 2 && InDispute(db)
      && db.items[0].subject == CandidateSubject(1) && db.items[0].payload.candidates == {0, 1}
      && db.observations == [Claimed("a", ONE, 0, 5, 3), B_SAYS] && Observations.ObservationInvariant(db)
      && Parking.ParkedAreNamed(db)
  {
    hide Run, Ingest.Validate, Pair, Observations.ObservationInvariant, Opening;
    Opened(true);
    Disputed(Run(Opening(true)), 3, 5, true, 0);
    Then(Opening(true), ValidationJob(Pair(true), 5, 0));
    Observations.RunsKeepObservations(DisputeRun());
    var db := Run(DisputeRun());
    forall x: nat | Parking.Parked(db, x) ensures Parking.NamedByQueue(db.items, x) { assert Parking.Names(db.items[0], x); }
  }

  /** Rejecting an item all that names anyone leaves whoever it was not about parked and unnamed. */
  lemma RejectingForgets(db: Db, w: World, x: nat)
    requires |db.items| == 1 && IsOpen(db.items[0]) && Coverage.ConflictStillOpen(db, db.items[0])
    requires db.items[0].subject.CandidateSubject? && Parking.Parked(db, db.items[0].subject.candidate)
    requires Parking.Parked(db, x) && db.items[0].subject != CandidateSubject(x)
    ensures var r := Review.Decide(db, w, 6, 0, db.items[0], INPUT, false);
      r.Success? && Parking.Parked(r.value.db, x) && !Parking.NamedByQueue(r.value.db.items, x)
  {
    hide Review.Decide;
    Rejecting(db, w, 6, 0, db.items[0]);
    Coverage.DecisionAnatomy(db, w, 6, 0, db.items[0], INPUT, false);
    Parking.DecidedRows(db, w, 6, 0, db.items[0], INPUT, false);
  }

  /** A decision forgets a parked candidate: rejecting the second's candidate leaves the first's parked and on nobody's page. */
  lemma DecisionForgetsExample()
    ensures Parking.ParkedAreNamed(Run(DisputeRun()))
    ensures var next := Run(DisputeRun() + [Decision(Pair(true), 6, 0, INPUT, false)]);
      Parking.Parked(next, 0) && !Parking.NamedByQueue(next.items, 0)
  {
    hide Run, Pair, Observations.ObservationInvariant, Review.Decide, DisputeRun, Parking.ParkedAreNamed, Parking.NamedByQueue;
    BothParked();
    RejectingForgets(Run(DisputeRun()), Pair(true), 0);
    Then(DisputeRun(), Decision(Pair(true), 6, 0, INPUT, false));
  }

  function NextVersionRun(): seq<Delivery> {
    DisputeRun() + [Extraction("a", Collected("a3", THREE), 5), ValidationJob(Pair(true), 6, 2)]
  }

  /**
   A validation forgets one too: the first source moves on to a third version, the item is described
   again with the new candidate in place of the old, and the old one stays parked and on nobody's page.
   */
  lemma ValidationForgetsExample()
    ensures Parking.ParkedAreNamed(Run(DisputeRun()))
    ensures var next := Run(NextVersionRun());
      Parking.Parked(next, 0) && !Parking.NamedByQueue(next.items, 0)
  {
    hide Run, Ingest.Validate, Pair, Observations.ObservationInvariant, DisputeRun, Blank, Ingest.Extract;
    Literals();
    BothParked();
    var first, second := Extraction("a", Collected("a3", THREE), 5), ValidationJob(Pair(true), 6, 2);
    var es := DisputeRun() + [first];
    Then(DisputeRun(), first);
    Keys();
    Collecting(Run(DisputeRun()), "a", "a3", THREE, 5);
    Observations.RunsKeepObservations(es);
    Disputed(Run(es), 5, 6, true, 2);
    Then(es, second);
    assert NextVersionRun() == es + [second];
  }
}
