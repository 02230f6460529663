/**
 The observation table over every run: one row a source, product and channel, always the latest claim
 that source has made there; and, as a consequence, a validation job that can always succeed.
 */
module Observations {
  import opened Wrappers
  import opened Text
  import opened Candidates
  import opened Tables
  import PartialDates
  import Conflicts
  import Gates
  import Ingest
  import Review
  import opened Runs

  ghost predicate KeysUnique(os: seq<Conflicts.Observation>) {
    forall i, j | 0 <= i < j < |os| :: !SameKey(os[i], os[j])
  }

  /** A row is storable and repeats the source, product and channel of the candidate it cites. */
  predicate ObservationSound(db: Db, o: Conflicts.Observation) {
    && Conflicts.Storable(o) && o.candidate < |db.rows|
    && var c := db.rows[o.candidate].c;
       o.source == c.source && o.product == c.product && o.channel == c.channel
  }

  ghost predicate ObservationInvariant(db: Db) {
    && KeysUnique(db.observations)
    && (forall i | 0 <= i < |db.observations| :: ObservationSound(db, db.observations[i]))
    && (forall x | 0 <= x < |db.rows| :: !Blank(db.rows[x].c.source) && ProperVersion(db.rows[x].c.version))
  }

  /** The table holds a row of the claim's key that the claim is not later than. */
  predicate Holds(os: seq<Conflicts.Observation>, claim: Conflicts.Observation) {
    exists i | 0 <= i < |os| :: SameKey(os[i], claim) && !Conflicts.LaterObservation(claim, os[i])
  }

  lemma RecordingKeepsKeys(os: seq<Conflicts.Observation>, o: Conflicts.Observation)
    requires KeysUnique(os)
    ensures KeysUnique(RecordObservation(os, o))
  {
  }

  /** The row read back for the subject's own source is the one recording would replace. */
  lemma OwnRowIsTheStoredOne(os: seq<Conflicts.Observation>, w: World, o: Conflicts.Observation)
    requires KeysUnique(os) && o.source in w.sources
    ensures var previous, found := OwnClaim(ClaimsFor(os, w, o.product, o.channel), o.source), FindObservation(os, o);
      && (previous.Some? <==> found.Some?)
      && (found.Some? ==> previous.value == os[found.value])
  {
    var claims := ClaimsFor(os, w, o.product, o.channel);
    var previous, found := OwnClaim(claims, o.source), FindObservation(os, o);
    if found.Some? {
      assert os[found.value] in os;
      assert Joined(os[found.value], w) in claims;
    }
    if previous.Some? {
      var c :| c in claims && c.o == previous.value;
      var i :| 0 <= i < |os| && os[i] == c.o;
      assert SameKey(os[i], o);
    }
  }

  /** Recording a claim later than the stored one keeps every earlier claim dominated, and holds the new one. */
  lemma RecordingHolds(os: seq<Conflicts.Observation>, o: Conflicts.Observation, claim: Conflicts.Observation)
    requires KeysUnique(os)
    requires var found := FindObservation(os, o); found.Some? ==> Conflicts.LaterObservation(o, os[found.value])
    ensures Holds(os, claim) ==> Holds(RecordObservation(os, o), claim)
    ensures Holds(RecordObservation(os, o), o)
  {
    var next := RecordObservation(os, o);
    var found := FindObservation(os, o);
    var at := if found.Some? then found.value else |os|;
    assert SameKey(next[at], o) && !Conflicts.LaterObservation(o, next[at]);
    if Holds(os, claim) {
      var i :| 0 <= i < |os| && SameKey(os[i], claim) && !Conflicts.LaterObservation(claim, os[i]);
      if found == Some(i) {
        assert SameKey(next[i], claim) && !Conflicts.LaterObservation(claim, next[i]);
      } else {
        assert next[i] == os[i];
      }
    }
  }

  /** The claim a validation hears: the subject of its assessment, when its source is eligible. */
  ghost predicate Hears(db: Db, w: World, now: int, id: nat, claim: Conflicts.Observation) {
    && Ingest.Validate(db, w, now, id).Success?
    && Ingest.Inspect(db, w, now, id).Success?
    && var a := Ingest.Inspect(db, w, now, id).value.a;
       a.Assessed? && a.subject.eligible && a.subject.o == claim
  }

  /** What validation does to the observation table. */
  lemma ValidationRecords(db: Db, w: World, now: int, id: nat)
    requires ObservationInvariant(db) && Ingest.Validate(db, w, now, id).Success?
    ensures var next := Ingest.Validate(db, w, now, id).value.db;
      && KeysUnique(next.observations)
      && (forall claim :: Holds(db.observations, claim) ==> Holds(next.observations, claim))
      && (forall claim :: Hears(db, w, now, id, claim) ==> Holds(next.observations, claim))
  {
    hide Holds, Ingest.Validate, Ingest.Inspect, Ingest.Reconcile, Gates.Judge, Ingest.RouteToReview, Ingest.DesiredItem,
      Ingest.JudgedRow, Ingest.BuildContext, Ingest.SettleConflict, Conflicts.LaterObservation, Conflicts.AssessSourceConflict,
      RecordObservation, FindObservation, OwnClaim, ClaimsFor, KeysUnique;
    Ingest.ValidationAnatomy(db, w, now, id);
    var f, rec := Ingest.Inspect(db, w, now, id).value, Ingest.Reconcile(db, w, now, id).value;
    var next := Ingest.Validate(db, w, now, id).value.db;
    ObservationsAfter(db, w, now, id);
    if f.a.Assessed? {
      var o := f.a.subject.o;
      OwnRowIsTheStoredOne(db.observations, w, o);
      var found := FindObservation(db.observations, o);
      if f.a.recordable {
        RecordingKeepsKeys(db.observations, o);
        forall claim ensures Holds(db.observations, claim) ==> Holds(next.observations, claim) {
          RecordingHolds(db.observations, o, claim);
        }
        RecordingHolds(db.observations, o, o);
      } else if f.a.subject.eligible {
        StoredHolds(db.observations, o, found.value);
      }
    }
  }

  lemma StoredHolds(os: seq<Conflicts.Observation>, o: Conflicts.Observation, i: nat)
    requires i < |os| && SameKey(os[i], o) && !Conflicts.LaterObservation(o, os[i])
    ensures Holds(os, o)
  {
  }

  lemma ObservationsAfter(db: Db, w: World, now: int, id: nat)
    requires Ingest.Validate(db, w, now, id).Success?
    ensures Ingest.Inspect(db, w, now, id).Success?
    ensures var a, next := Ingest.Inspect(db, w, now, id).value.a, Ingest.Validate(db, w, now, id).value.db;
      && next.observations == (if a.Assessed? && a.recordable then RecordObservation(db.observations, a.subject.o) else db.observations)
      && (a.Assessed? && a.recordable ==> Conflicts.Storable(a.subject.o))
  {
    hide Ingest.Validate, Ingest.Inspect, Gates.Judge, Ingest.RouteToReview, Ingest.DesiredItem,
      Ingest.JudgedRow, Ingest.BuildContext, Ingest.Assess, RecordObservation, Conflicts.Storable;
    Ingest.ValidationAnatomy(db, w, now, id);
    var f, rec := Ingest.Inspect(db, w, now, id).value, Ingest.Reconcile(db, w, now, id).value;
    if Ingest.NeedsItem(f, rec) {
      var judged := Ingest.Judged(db, f, rec, id, now);
      Ingest.RoutingOnlyMovesQueue(judged, id,
        Ingest.DesiredItem(w, judged.rows[id].c, id, f.src, f.verdict, f.a, rec.outcome, now),
        db.rows[id].c.source, f.a, rec.outcome);
    }
  }

  // ---------------------------------------------------------------------------------------------
  // Every delivery
  // ---------------------------------------------------------------------------------------------

  lemma ValidationKeepsObservations(db: Db, w: World, now: int, id: nat)
    requires ObservationInvariant(db) && Ingest.Validate(db, w, now, id).Success?
    ensures ObservationInvariant(Ingest.Validate(db, w, now, id).value.db)
  {
    hide Ingest.Validate, Ingest.Inspect, KeysUnique, RecordObservation, ObservationSound, Holds, Hears, Conflicts.Storable;
    var next := Ingest.Validate(db, w, now, id).value.db;
    Ingest.RowsAfterValidation(db, w, now, id);
    ValidationRecords(db, w, now, id);
    ObservationsAfter(db, w, now, id);
    var a := Ingest.Inspect(db, w, now, id).value.a;
    if a.Assessed? && a.recordable {
      SubjectIsSound(db, w, now, id);
      RecordingKeepsSound(db, next, a.subject.o);
    } else {
      KeepingKeepsSound(db, next);
    }
  }

  /** A claim about to be recorded is storable and about the candidate as the validation leaves it. */
  lemma SubjectIsSound(db: Db, w: World, now: int, id: nat)
    requires Ingest.Validate(db, w, now, id).Success? && Ingest.Inspect(db, w, now, id).Success?
    requires Ingest.Inspect(db, w, now, id).value.a.Assessed? && Conflicts.Storable(Ingest.Inspect(db, w, now, id).value.a.subject.o)
    ensures ObservationSound(Ingest.Validate(db, w, now, id).value.db, Ingest.Inspect(db, w, now, id).value.a.subject.o)
  {
    hide Ingest.Validate, Ingest.Inspect, Ingest.SettleProduct, Conflicts.Storable;
    Ingest.RowsAfterValidation(db, w, now, id);
    SubjectDescribesCandidate(db, w, now, id);
  }

  lemma KeepingKeepsSound(db: Db, next: Db)
    requires ObservationInvariant(db) && |next.rows| == |db.rows| && next.observations == db.observations
    requires forall x | 0 <= x < |db.rows| :: Ingest.SameClaim(db.rows[x], next.rows[x])
    ensures forall i | 0 <= i < |next.observations| :: ObservationSound(next, next.observations[i])
  {
    forall i | 0 <= i < |next.observations| ensures ObservationSound(next, next.observations[i]) {
      assert ObservationSound(db, db.observations[i]);
    }
  }

  lemma RecordingKeepsSound(db: Db, next: Db, o: Conflicts.Observation)
    requires ObservationInvariant(db) && |next.rows| == |db.rows|
    requires forall x | 0 <= x < |db.rows| :: Ingest.SameClaim(db.rows[x], next.rows[x])
    requires ObservationSound(next, o) && next.observations == RecordObservation(db.observations, o)
    ensures forall i | 0 <= i < |next.observations| :: ObservationSound(next, next.observations[i])
  {
    KeepingKeepsSound(db, next.(observations := db.observations));
    forall i | 0 <= i < |next.observations| ensures ObservationSound(next, next.observations[i]) {
      if i < |db.observations| && next.observations[i] == db.observations[i] {
        assert ObservationSound(next.(observations := db.observations), db.observations[i]);
      }
    }
  }

  /** The subject of an assessment carries the candidate's own source, channel and settled product. */
  lemma SubjectDescribesCandidate(db: Db, w: World, now: int, id: nat)
    requires Ingest.Inspect(db, w, now, id).Success?
    ensures var f, c := Ingest.Inspect(db, w, now, id).value, db.rows[id].c;
      f.a.Assessed? ==>
        && f.a.subject.o.source == c.source && f.a.subject.o.channel == c.channel && f.a.subject.o.candidate == id
        && f.a.subject.o.product == Ingest.SettleProduct(c, f.found).product
        && f.a.subject.o.raw == c.version.raw && f.a.subject.o.normalized == c.version.normalized
  {
  }

  lemma SameClaimsKeepObservations(db: Db, next: Db)
    requires ObservationInvariant(db) && next.observations == db.observations && |next.rows| >= |db.rows|
    requires forall x | 0 <= x < |db.rows| :: Ingest.SameClaim(db.rows[x], next.rows[x])
    requires forall x | |db.rows| <= x < |next.rows| :: !Blank(next.rows[x].c.source) && ProperVersion(next.rows[x].c.version)
    ensures ObservationInvariant(next)
  {
    forall i | 0 <= i < |next.observations| ensures ObservationSound(next, next.observations[i]) {
      assert ObservationSound(db, db.observations[i]);
    }
  }

  lemma StepKeepsObservations(db: Db, e: Delivery)
    requires ObservationInvariant(db)
    ensures ObservationInvariant(Step(db, e))
    ensures forall claim | Holds(db.observations, claim) :: Holds(Step(db, e).observations, claim)
  {
    hide Ingest.Validate, Review.Decide, ObservationInvariant;
    match e
    case Extraction(source, collected, now) =>
      SameClaimsKeepObservations(db, Step(db, e));
    case ValidationJob(w, now, id) =>
      if Ingest.Validate(db, w, now, id).Success? {
        ValidationKeepsObservations(db, w, now, id);
        ValidationRecords(db, w, now, id);
      }
    case PublicationJob(w, now, id) =>
      SameClaimsKeepObservations(db, Step(db, e));
    case Decision(w, now, item, input, accept) =>
      if item < |db.items| && Review.Decide(db, w, now, item, db.items[item], input, accept).Success? {
        DecisionKeepsObservations(db, w, now, item, db.items[item], input, accept);
      }
    case LateDecision(w, now, item, seen, input, accept) =>
      if Review.Decide(db, w, now, item, seen, input, accept).Success? {
        DecisionKeepsObservations(db, w, now, item, seen, input, accept);
      }
  }

  lemma DecisionKeepsObservations(db: Db, w: World, now: int, item: nat, seen: ReviewItem, input: Review.Input, accept: bool)
    requires ObservationInvariant(db) && Review.Decide(db, w, now, item, seen, input, accept).Success?
    ensures var next := Review.Decide(db, w, now, item, seen, input, accept).value.db;
      ObservationInvariant(next) && next.observations == db.observations
  {
    hide ObservationInvariant;
    SameClaimsKeepObservations(db, Review.Decide(db, w, now, item, seen, input, accept).value.db);
  }

  lemma {:induction false} RunsKeepObservations(es: seq<Delivery>)
    ensures ObservationInvariant(Run(es))
  {
    hide Step;
    if |es| > 0 {
      RunsKeepObservations(es[..|es| - 1]);
      StepKeepsObservations(Run(es[..|es| - 1]), es[|es| - 1]);
    }
  }

  /** What a validation heard is held once it has run. */
  lemma HeardIsHeld(db: Db, e: Delivery, claim: Conflicts.Observation)
    requires ObservationInvariant(db) && e.ValidationJob? && Hears(db, e.w, e.now, e.id, claim)
    ensures Holds(Step(db, e).observations, claim)
  {
    hide Hears, Holds, Ingest.Validate, ObservationInvariant;
    HeardSucceeds(db, e.w, e.now, e.id, claim);
    ValidationRecords(db, e.w, e.now, e.id);
  }

  lemma InvariantHasUniqueKeys(db: Db)
    requires ObservationInvariant(db)
    ensures KeysUnique(db.observations)
  {
  }

  lemma RunEndsInStep(es: seq<Delivery>)
    requires |es| > 0
    ensures Run(es) == Step(Run(es[..|es| - 1]), es[|es| - 1])
  {
    hide Step;
  }

  /**
   Over every run, whatever an eligible source was once heard to claim, the table ends up holding one
   row for that source, product and channel, and the claim is not later than it.
   */
  lemma {:induction false} StoredIsMaximumOfHeard(es: seq<Delivery>, k: nat, claim: Conflicts.Observation)
    requires k < |es| && es[k].ValidationJob?
    requires Hears(Run(es[..k]), es[k].w, es[k].now, es[k].id, claim)
    ensures KeysUnique(Run(es).observations) && Holds(Run(es).observations, claim)
  {
    hide Hears, Holds, Step, Run, ObservationInvariant;
    var n := |es| - 1;
    RunsKeepObservations(es);
    InvariantHasUniqueKeys(Run(es));
    RunsKeepObservations(es[..n]);
    RunEndsInStep(es);
    if k < n {
      assert es[..n][..k] == es[..k];
      StoredIsMaximumOfHeard(es[..n], k, claim);
      StepKeepsObservations(Run(es[..n]), es[n]);
    } else {
      HeardIsHeld(Run(es[..n]), es[n], claim);
    }
  }

  /** The claim gives a release date, of whatever precision. */
  predicate Dated(o: Conflicts.Observation) { o.releaseDate.precision != PartialDates.Unknown }

  /**
   A stored row is as recent as a claim: it is dated if the claim is, no earlier than it, and where the dates
   leave the matter open, because they are level or neither is dated, it was observed no earlier.
   */
  predicate AsRecent(stored: Conflicts.Observation, claim: Conflicts.Observation) {
    && (Dated(claim) ==> Dated(stored) && claim.releaseDate.anchor <= stored.releaseDate.anchor)
    && (!Dated(claim) && !Dated(stored) ==> claim.observedAt <= stored.observedAt)
    && (Dated(claim) && Dated(stored) && claim.releaseDate.anchor == stored.releaseDate.anchor ==> claim.observedAt <= stored.observedAt)
  }

  lemma NotLaterMeans(stored: Conflicts.Observation, claim: Conflicts.Observation)
    ensures !Conflicts.LaterObservation(claim, stored) <==> AsRecent(stored, claim)
  {
  }

  /**
   The same in dates and instants: whatever an eligible source was once heard to claim of a product and
   channel, exactly one row of the table is about that source, product and channel, and it is as recent.
   */
  lemma StoredIsAsRecentAsHeard(es: seq<Delivery>, k: nat, claim: Conflicts.Observation)
    requires k < |es| && es[k].ValidationJob?
    requires Hears(Run(es[..k]), es[k].w, es[k].now, es[k].id, claim)
    ensures var os := Run(es).observations;
      exists i | 0 <= i < |os| ::
        && os[i].source == claim.source && os[i].product == claim.product && os[i].channel == claim.channel
        && AsRecent(os[i], claim)
        && forall j | 0 <= j < |os| && j != i ::
             os[j].source != claim.source || os[j].product != claim.product || os[j].channel != claim.channel
  {
    hide Hears, Run, Conflicts.LaterObservation, AsRecent;
    StoredIsMaximumOfHeard(es, k, claim);
    var os := Run(es).observations;
    var i :| 0 <= i < |os| && SameKey(os[i], claim) && !Conflicts.LaterObservation(claim, os[i]);
    NotLaterMeans(os[i], claim);
    forall j | 0 <= j < |os| && j != i ensures !SameKey(os[j], claim) {
      assert !SameKey(os[if i < j then i else j], os[if i < j then j else i]);
    }
  }

  // ---------------------------------------------------------------------------------------------
  // Nothing stored was made up
  // ---------------------------------------------------------------------------------------------

  /** A subject carries the time its source's stored row was first seen. */
  lemma SubjectKeepsFirstSeen(os: seq<Conflicts.Observation>, w: World, c: Candidate, id: nat, src: Source, product: string, now: int)
    requires KeysUnique(os) && c.source in w.sources
    ensures var a := Ingest.Assess(os, w, c, id, src, product, now);
      a.Assessed? ==>
        var found := FindObservation(os, a.subject.o);
        && (found.Some? ==> a.subject.o.firstObservedAt == os[found.value].firstObservedAt)
        && (found.None? ==> a.subject.o.firstObservedAt == now)
        && (a.recordable ==> a.subject.eligible)
  {
    hide ClaimsFor, OwnClaim, FindObservation, Conflicts.AssessSourceConflict, Conflicts.LaterObservation, KeysUnique;
    var a := Ingest.Assess(os, w, c, id, src, product, now);
    if a.Assessed? { OwnRowIsTheStoredOne(os, w, a.subject.o); }
  }

  /** Recording such a claim stores exactly that claim, and leaves every other row as it was. */
  lemma RecordedRow(os: seq<Conflicts.Observation>, o: Conflicts.Observation, i: nat)
    requires var found := FindObservation(os, o); found.Some? ==> o.firstObservedAt == os[found.value].firstObservedAt
    requires i < |RecordObservation(os, o)|
    ensures RecordObservation(os, o)[i] == o || (i < |os| && RecordObservation(os, o)[i] == os[i])
  {
  }

  /** A row of the table was there before a delivery, or is what the delivery heard. */
  lemma StepStoresWhatItHears(db: Db, e: Delivery, i: nat)
    requires ObservationInvariant(db) && i < |Step(db, e).observations|
    ensures var row := Step(db, e).observations[i];
      || (i < |db.observations| && db.observations[i] == row)
      || (e.ValidationJob? && Hears(db, e.w, e.now, e.id, row))
  {
    hide Ingest.Validate, Review.Decide, Ingest.Inspect, RecordObservation, ObservationInvariant;
    match e
    case Extraction(source, collected, now) =>
    case ValidationJob(w, now, id) =>
      if Ingest.Validate(db, w, now, id).Success? {
        ObservationsAfter(db, w, now, id);
        InvariantHasUniqueKeys(db);
        InspectedSubject(db, w, now, id);
        var a := Ingest.Inspect(db, w, now, id).value.a;
        if a.Assessed? && a.recordable { RecordedRow(db.observations, a.subject.o, i); }
      }
    case PublicationJob(w, now, id) =>
    case Decision(w, now, item, input, accept) =>
      if item < |db.items| && Review.Decide(db, w, now, item, db.items[item], input, accept).Success? {
        DecisionKeepsObservations(db, w, now, item, db.items[item], input, accept);
      }
    case LateDecision(w, now, item, seen, input, accept) =>
      if Review.Decide(db, w, now, item, seen, input, accept).Success? {
        DecisionKeepsObservations(db, w, now, item, seen, input, accept);
      }
  }

  lemma InspectedSubject(db: Db, w: World, now: int, id: nat)
    requires KeysUnique(db.observations) && Ingest.Inspect(db, w, now, id).Success?
    ensures var a := Ingest.Inspect(db, w, now, id).value.a;
      a.Assessed? ==>
        var found := FindObservation(db.observations, a.subject.o);
        && (found.Some? ==> a.subject.o.firstObservedAt == db.observations[found.value].firstObservedAt)
        && (found.None? ==> a.subject.o.firstObservedAt == now)
        && (a.recordable ==> a.subject.eligible)
  {
    hide Ingest.Assess, Gates.Judge, Ingest.BuildContext, KeysUnique, FindObservation;
    var c := db.rows[id].c;
    var src := w.sources[c.source];
    var m := Ingest.ResolveProduct(w, src, c);
    SubjectKeepsFirstSeen(db.observations, w, c, id, src, if c.product == "" then m.product else c.product, now);
  }

  /**
   Every row a run leaves in the table is, to the letter, a claim some earlier validation in the run heard
   an eligible source make: with the bound above, the stored row is the maximum of what was heard.
   */
  lemma {:induction false} StoredWasHeard(es: seq<Delivery>, i: nat)
    requires i < |Run(es).observations|
    ensures exists k | 0 <= k < |es| && es[k].ValidationJob? ::
      Hears(Run(es[..k]), es[k].w, es[k].now, es[k].id, Run(es).observations[i])
  {
    hide Hears, Step, ObservationInvariant;
    if |es| > 0 {
      var n := |es| - 1;
      var row := Run(es).observations[i];
      RunsKeepObservations(es[..n]);
      StepStoresWhatItHears(Run(es[..n]), es[n], i);
      if !(es[n].ValidationJob? && Hears(Run(es[..n]), es[n].w, es[n].now, es[n].id, row)) {
        StoredWasHeard(es[..n], i);
        var k :| 0 <= k < n && es[..n][k].ValidationJob?
          && Hears(Run(es[..n][..k]), es[..n][k].w, es[..n][k].now, es[..n][k].id, row);
        assert es[..n][..k] == es[..k] && es[..n][k] == es[k];
      }
    }
  }

  /** The delivery is a validation that hears this source about this product and channel. */
  ghost predicate HearsAbout(db: Db, e: Delivery, o: Conflicts.Observation) {
    e.ValidationJob? && exists claim :: Hears(db, e.w, e.now, e.id, claim) && SameKey(claim, o)
  }

  /** A delivery leaves when a row was first seen, and one whose key was not there is first seen now. */
  lemma FirstSeenStays(db: Db, e: Delivery, i: nat)
    requires ObservationInvariant(db) && i < |Step(db, e).observations|
    ensures var o, found := Step(db, e).observations[i], FindObservation(db.observations, Step(db, e).observations[i]);
      && (found.Some? ==> o.firstObservedAt == db.observations[found.value].firstObservedAt)
      && (found.None? ==> HearsAbout(db, e, o) && o.firstObservedAt == e.now)
  {
    hide Step, ObservationInvariant, FindObservation, Ingest.Validate, Ingest.Inspect;
    var o := Step(db, e).observations[i];
    StepStoresWhatItHears(db, e, i);
    InvariantHasUniqueKeys(db);
    if !(i < |db.observations| && db.observations[i] == o) { InspectedSubject(db, e.w, e.now, e.id); }
  }

  /** The first delivery of the run to hear a row's source about its product and channel, at the instant the row gives. */
  ghost predicate FirstHeardAt(es: seq<Delivery>, k: nat, o: Conflicts.Observation) {
    && k < |es| && HearsAbout(Run(es[..k]), es[k], o) && es[k].now == o.firstObservedAt
    && forall m | 0 <= m < k :: !HearsAbout(Run(es[..m]), es[m], o)
  }

  lemma HeardIsStored(es: seq<Delivery>, m: nat, o: Conflicts.Observation)
    requires m < |es| && HearsAbout(Run(es[..m]), es[m], o)
    ensures FindObservation(Run(es).observations, o).Some?
  {
    hide Hears, Run, FindObservation;
    var claim :| Hears(Run(es[..m]), es[m].w, es[m].now, es[m].id, claim) && SameKey(claim, o);
    StoredIsMaximumOfHeard(es, m, claim);
    var i :| 0 <= i < |Run(es).observations| && SameKey(Run(es).observations[i], claim);
    assert SameKey(Run(es).observations[i], o);
  }

  lemma SameKeyHeard(db: Db, e: Delivery, o: Conflicts.Observation, p: Conflicts.Observation)
    requires SameKey(o, p)
    ensures HearsAbout(db, e, o) <==> HearsAbout(db, e, p)
  {
    hide Hears;
  }

  /** Over every run, a row says when its source was first heard about its product and channel. */
  lemma {:induction false} RowsTellWhenFirstHeard(es: seq<Delivery>, i: nat) returns (k: nat)
    requires i < |Run(es).observations|
    ensures FirstHeardAt(es, k, Run(es).observations[i])
  {
    hide Step, HearsAbout, FindObservation, ObservationInvariant;
    var n := |es| - 1;
    var init := es[..n];
    var db, o := Run(init), Run(es).observations[i];
    RunsKeepObservations(init);
    FirstSeenStays(db, es[n], i);
    var found := FindObservation(db.observations, o);
    if found.Some? {
      var was := db.observations[found.value];
      k := RowsTellWhenFirstHeard(init, found.value);
      assert forall m | 0 <= m <= k :: init[..m] == es[..m] && init[m] == es[m];
      forall m | 0 <= m <= k ensures HearsAbout(Run(es[..m]), es[m], o) <==> HearsAbout(Run(es[..m]), es[m], was) {
        SameKeyHeard(Run(es[..m]), es[m], o, was);
      }
    } else {
      k := n;
      forall m | 0 <= m < n ensures !HearsAbout(Run(es[..m]), es[m], o) {
        assert init[..m] == es[..m] && init[m] == es[m];
        if HearsAbout(Run(es[..m]), es[m], o) { HeardIsStored(init, m, o); }
      }
    }
  }

  lemma HeardSucceeds(db: Db, w: World, now: int, id: nat, claim: Conflicts.Observation)
    requires Hears(db, w, now, id, claim)
    ensures Ingest.Validate(db, w, now, id).Success?
  {
  }

  // ---------------------------------------------------------------------------------------------
  // Validation never gets stuck
  // ---------------------------------------------------------------------------------------------

  /**
   In every reachable state a validation of a stored candidate of a registered source succeeds: the
   conflict it may have to open is always valid, and no write of the routing can be refused. The
   product, the candidate's own or the one its hint resolves to, must not be white space, and the
   clock must have started.
   */
  lemma ValidationSucceeds(db: Db, w: World, now: int, id: nat)
    requires ObservationInvariant(db) && id < |db.rows| && db.rows[id].c.source in w.sources && now != 0
    requires var c := db.rows[id].c;
      var product := Ingest.SettleProduct(c, Ingest.ResolveProduct(w, w.sources[c.source], c)).product;
      product == "" || !Blank(product)
    ensures Ingest.Validate(db, w, now, id).Success?
  {
    hide Gates.Judge, Ingest.RouteToReview, Ingest.DesiredItem, Ingest.BuildContext, Conflicts.AssessSourceConflict,
      Conflicts.ValidConflict, OwnClaim, ClaimsFor, UpsertOpenConflict, OpenConflictFor, Ingest.ResolveProduct;
    var f := Ingest.Inspect(db, w, now, id).value;
    if f.a.Assessed? && f.a.subject.eligible && f.a.verdict.status == Conflicts.Unresolved {
      forall c | c in f.a.others ensures !Blank(c.o.source) {
        var i :| 0 <= i < |db.observations| && db.observations[i] == c.o;
        assert ObservationSound(db, db.observations[i]);
      }
      Conflicts.OpenedConflictIsValid(f.a.subject, f.a.others, now);
    }
  }
}
