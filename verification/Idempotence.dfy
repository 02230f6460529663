/**
 Validation is idempotent as a step: a second delivery at the same clock reading finds nothing left to
 write and nothing to announce, exactly when looking up the settled product would not change the verdict.
 */
module Idempotence {
  import opened Wrappers
  import opened Text
  import opened Candidates
  import opened Tables
  import Conflicts
  import Gates
  import Releases
  import Ingest
  import Coverage
  import Observations
  import Uniqueness
  import opened Runs

  // ---------------------------------------------------------------------------------------------
  // The second inspection
  // ---------------------------------------------------------------------------------------------

  /** The gates look at a candidate's version, date, evidence and confidence, not at its state or product. */
  lemma {:induction false} GatesIgnoreStanding(c: Candidate, c': Candidate, ctx: Gates.Context, n: nat)
    requires n <= 10
    requires c'.version == c.version && c'.releaseDate == c.releaseDate && c'.evidence == c.evidence && c'.confidence == c.confidence
    ensures Gates.RunGates(c', ctx, n) == Gates.RunGates(c, ctx, n)
  {
    hide Gates.OutcomeOf, Gates.GateAt;
    if n > 0 {
      GatesIgnoreStanding(c, c', ctx, n - 1);
      OutcomeIgnoresStanding(Gates.GateAt(n), c, c', ctx);
    }
  }

  lemma OutcomeIgnoresStanding(g: Gates.Gate, c: Candidate, c': Candidate, ctx: Gates.Context)
    requires c'.version == c.version && c'.releaseDate == c.releaseDate && c'.evidence == c.evidence && c'.confidence == c.confidence
    ensures Gates.OutcomeOf(g, c', ctx) == Gates.OutcomeOf(g, c, ctx)
  {
  }

  /** The decision and the deciding gate are already in the recorded results. */
  function Replay(results: seq<Gates.GateResult>): Gates.Verdict {
    if |results| == 0 then Gates.Verdict([], Gates.Passed, None)
    else
      var last := results[|results| - 1];
      Gates.Record(Replay(results[..|results| - 1]), last.gate, last.order, last.outcome)
  }

  lemma {:induction false} ResultsDetermineVerdict(c: Candidate, ctx: Gates.Context, n: nat)
    requires n <= 10
    ensures Gates.RunGates(c, ctx, n) == Replay(Gates.RunGates(c, ctx, n).results)
  {
    hide Gates.OutcomeOf;
    if n > 0 {
      ResultsDetermineVerdict(c, ctx, n - 1);
      var before, v := Gates.RunGates(c, ctx, n - 1), Gates.RunGates(c, ctx, n);
      if before.decision != Gates.RejectedBy { assert v.results[..|v.results| - 1] == before.results; }
    }
  }

  /** Refreshing a verification time changes neither lookup. */
  lemma {:induction false} TouchKeepsDuplicate(cat: Releases.Tables, r: nat, now: int, product: string, normalized: string, channel: string, n: nat)
    requires r < |cat.releases| && n <= |cat.mappings|
    ensures Releases.DuplicateAmong(Releases.Touch(cat, r, now), product, normalized, channel, n)
      == Releases.DuplicateAmong(cat, product, normalized, channel, n)
  {
    if n > 0 { TouchKeepsDuplicate(cat, r, now, product, normalized, channel, n - 1); }
  }

  lemma {:induction false} TouchKeepsLatestAnswer(cat: Releases.Tables, r: nat, now: int, product: string, channel: string, n: nat)
    requires r < |cat.releases| && n <= |cat.mappings|
    ensures Releases.LatestAmong(Releases.Touch(cat, r, now), product, channel, n) == Releases.LatestAmong(cat, product, channel, n)
  {
    hide Releases.LatestComparison, Releases.Answers, Releases.Touch;
    TouchedRows(cat, r, now);
    if n > 0 {
      TouchKeepsLatestAnswer(cat, r, now, product, channel, n - 1);
      var before := Releases.LatestAmong(cat, product, channel, n - 1);
      var m := cat.mappings[n - 1];
      TouchKeepsAnswer(cat, r, now, m, product, channel);
      if before.Some? {
        TouchKeepsComparison(cat, r, now, m.release, before.value);
      }
    }
  }

  lemma TouchedRows(cat: Releases.Tables, r: nat, now: int)
    requires r < |cat.releases|
    ensures var next := Releases.Touch(cat, r, now); next.mappings == cat.mappings && |next.releases| == |cat.releases|
  {
  }

  lemma TouchKeepsAnswer(cat: Releases.Tables, r: nat, now: int, m: Releases.Mapping, product: string, channel: string)
    requires r < |cat.releases| && m.release < |cat.releases|
    ensures Releases.Answers(Releases.Touch(cat, r, now), m, product, channel) == Releases.Answers(cat, m, product, channel)
  {
  }

  lemma TouchKeepsComparison(cat: Releases.Tables, r: nat, now: int, a: nat, b: nat)
    requires r < |cat.releases| && a < |cat.releases| && b < |cat.releases|
    ensures var next := Releases.Touch(cat, r, now);
      Releases.LatestComparison(next.releases[a], next.releases[b]) == Releases.LatestComparison(cat.releases[a], cat.releases[b])
  {
  }

  /** Two assessments that tell the same story: same subject, same verdict, same claims from elsewhere. */
  ghost predicate SameStory(a: Ingest.Assessment, b: Ingest.Assessment) {
    if a.Skipped? then b.Skipped?
    else
      && b.Assessed? && b.subject == a.subject && b.verdict == a.verdict
      && forall c: Conflicts.Claim | c.o.source != a.subject.o.source :: c in a.others <==> c in b.others
  }

  /** Recording the subject leaves the claims of every other source as they were. */
  lemma RecordingKeepsOthers(os: seq<Conflicts.Observation>, w: World, o: Conflicts.Observation)
    ensures forall c: Conflicts.Claim | c.o.source != o.source ::
      c in ClaimsFor(os, w, o.product, o.channel) <==> c in ClaimsFor(RecordObservation(os, o), w, o.product, o.channel)
  {
    var next := RecordObservation(os, o);
    forall p: Conflicts.Observation | p.source != o.source ensures p in os <==> p in next {
      if p in os { var i :| 0 <= i < |os| && os[i] == p; assert next[i] == p; }
    }
  }

  /** What was just recorded is what is read back, when it carries the time its source first said so. */
  lemma RecordedIsReadBack(os: seq<Conflicts.Observation>, w: World, o: Conflicts.Observation)
    requires Observations.KeysUnique(os) && o.source in w.sources
    requires var found := FindObservation(os, o); found.Some? ==> o.firstObservedAt == os[found.value].firstObservedAt
    ensures OwnClaim(ClaimsFor(RecordObservation(os, o), w, o.product, o.channel), o.source) == Some(o)
  {
    hide ClaimsFor, OwnClaim;
    var found, os' := FindObservation(os, o), RecordObservation(os, o);
    var at := if found.Some? then found.value else |os|;
    assert os'[at] == o && SameKey(os'[at], o);
    Observations.RecordingKeepsKeys(os, o);
    Observations.OwnRowIsTheStoredOne(os', w, o);
    var again := FindObservation(os', o);
    assert SameKey(os'[again.value], os'[at]);
    assert again.value == at;
  }

  /** Two readings of one candidate that make the same claim. */
  predicate SameWords(c: Candidate, c': Candidate) {
    && c'.source == c.source && c'.channel == c.channel && c'.version == c.version && c'.releaseDate == c.releaseDate
    && c'.evidence == c.evidence && c'.confidence == c.confidence && c'.hint == c.hint
  }

  /** Assessing again after the first assessment's claim has been dealt with, whatever has become of the candidate. */
  lemma SecondAssessment(os: seq<Conflicts.Observation>, w: World, c: Candidate, c': Candidate, id: nat, src: Source, product: string, now: int)
    requires Observations.KeysUnique(os) && c.source in w.sources && SameWords(c, c')
    ensures var a := Ingest.Assess(os, w, c, id, src, product, now);
      var os' := if a.Assessed? && a.recordable then RecordObservation(os, a.subject.o) else os;
      var b := Ingest.Assess(os', w, c', id, src, product, now);
      SameStory(a, b) && (b.Assessed? ==> !b.recordable)
  {
    var a := Ingest.Assess(os, w, c, id, src, product, now);
    if a.Assessed? && a.recordable {
      SecondAfterRecording(os, w, c, c', id, src, product, now);
    }
  }

  lemma SecondAfterRecording(os: seq<Conflicts.Observation>, w: World, c: Candidate, c': Candidate, id: nat, src: Source, product: string, now: int)
    requires Observations.KeysUnique(os) && c.source in w.sources && SameWords(c, c')
    requires var a := Ingest.Assess(os, w, c, id, src, product, now); a.Assessed? && a.recordable
    ensures var a := Ingest.Assess(os, w, c, id, src, product, now);
      var b := Ingest.Assess(RecordObservation(os, a.subject.o), w, c', id, src, product, now);
      SameStory(a, b) && b.Assessed? && !b.recordable
  {
    hide ClaimsFor, OwnClaim, FindObservation, RecordObservation, Conflicts.AssessSourceConflict, Joined, Observations.KeysUnique,
      Conflicts.LaterObservation;
    var a := Ingest.Assess(os, w, c, id, src, product, now);
    var o := a.subject.o;
    Observations.OwnRowIsTheStoredOne(os, w, o);
    RecordedIsReadBack(os, w, o);
    RecordingKeepsOthers(os, w, o);
    NoClaimIsLaterThanItself(o);
    var b := Ingest.Assess(RecordObservation(os, o), w, c', id, src, product, now);
    assert b.subject == a.subject;
    Conflicts.AssessmentIgnoresOrder(a.subject, a.others, b.others);
  }

  lemma NoClaimIsLaterThanItself(o: Conflicts.Observation)
    ensures !Conflicts.LaterObservation(o, o)
  {
  }

  /** The context of a second run: the lookups now concern the settled product. */
  function Rechecked(db: Db, w: World, c: Candidate, f: Ingest.Findings): Gates.Context {
    var settled := Ingest.SettleProduct(c, f.found);
    f.context.(duplicate := Ingest.DuplicateOf(db.catalog, settled),
               implausible := w.implausible(Ingest.PreviousVersion(db.catalog, settled), c.version))
  }

  /** What the first validation leaves of everything the second one will read. */
  ghost predicate Rereads(db: Db, next: Db, id: nat, f: Ingest.Findings, now: int) {
    && id < |db.rows| && id < |next.rows|
    && next.rows[id].c == Ingest.SettleProduct(db.rows[id].c, f.found).(state := next.rows[id].c.state)
    && next.observations == (if f.a.Assessed? && f.a.recordable then RecordObservation(db.observations, f.a.subject.o) else db.observations)
    && f.context.duplicate == Ingest.DuplicateOf(db.catalog, db.rows[id].c)
    && next.catalog == (if f.context.duplicate.Some? then Releases.Touch(db.catalog, f.context.duplicate.value, now) else db.catalog)
  }

  /** A second inspection hears the same story, with nothing left to record, and judges by the settled product. */
  ghost predicate Echoes(db: Db, next: Db, w: World, id: nat, f: Ingest.Findings, g: Ingest.Findings)
    requires id < |db.rows| && id < |next.rows|
  {
    && g.src == f.src && g.found.resolved == f.found.resolved && g.found.ambiguous == f.found.ambiguous
    && Ingest.SettleProduct(next.rows[id].c, g.found) == next.rows[id].c
    && SameStory(f.a, g.a) && (g.a.Assessed? ==> !g.a.recordable)
    && g.context == Rechecked(db, w, db.rows[id].c, f)
    && g.verdict == Gates.Judge(db.rows[id].c, g.context)
  }

  lemma ResolvingAgain(w: World, src: Source, c: Candidate, s: State)
    ensures var m := Ingest.ResolveProduct(w, src, c);
      var c' := Ingest.SettleProduct(c, m).(state := s);
      var again := Ingest.ResolveProduct(w, src, c');
      && again.resolved == m.resolved && again.ambiguous == m.ambiguous && Ingest.SettleProduct(c', again) == c'
      && (if c.product == "" then m.product else c.product) == (if c'.product == "" then again.product else c'.product)
  {
  }

  lemma InspectingAgain(db: Db, next: Db, w: World, now: int, id: nat)
    requires Observations.KeysUnique(db.observations) && Ingest.Inspect(db, w, now, id).Success?
    requires Rereads(db, next, id, Ingest.Inspect(db, w, now, id).value, now)
    ensures Ingest.Inspect(next, w, now, id).Success?
    ensures Echoes(db, next, w, id, Ingest.Inspect(db, w, now, id).value, Ingest.Inspect(next, w, now, id).value)
  {
    hide Ingest.Assess, RecordObservation, Observations.KeysUnique, Gates.RunGates, Ingest.ResolveProduct, Ingest.PreviousVersion,
      Ingest.DuplicateOf, SameStory;
    var f := Ingest.Inspect(db, w, now, id).value;
    var c, c' := db.rows[id].c, next.rows[id].c;
    ResolvingAgain(w, f.src, c, c'.state);
    var product := if c.product == "" then f.found.product else c.product;
    SecondAssessment(db.observations, w, c, c', id, f.src, product, now);
    LookupsAgain(db.catalog, next.catalog, c, f.found, c'.state, f.context.duplicate, now);
    GatesIgnoreStanding(c, c', Rechecked(db, w, c, f), 10);
  }

  /** The settled product's lookups answer the same after a duplicate has been refreshed. */
  lemma LookupsAgain(cat: Releases.Tables, next: Releases.Tables, c: Candidate, m: Ingest.Match, s: State, duplicate: Option<nat>, now: int)
    requires duplicate == Ingest.DuplicateOf(cat, c)
    requires next == if duplicate.Some? then Releases.Touch(cat, duplicate.value, now) else cat
    ensures var settled := Ingest.SettleProduct(c, m);
      && Ingest.DuplicateOf(next, settled.(state := s)) == Ingest.DuplicateOf(cat, settled)
      && Ingest.PreviousVersion(next, settled.(state := s)) == Ingest.PreviousVersion(cat, settled)
  {
    hide Releases.DuplicateAmong, Releases.LatestAmong;
    if duplicate.Some? {
      var r, n := duplicate.value, |cat.mappings|;
      TouchKeepsDuplicate(cat, r, now, c.product, c.version.normalized, c.channel, n);
      TouchKeepsLatestAnswer(cat, r, now, c.product, c.channel, n);
    }
  }

  // ---------------------------------------------------------------------------------------------
  // The second write
  // ---------------------------------------------------------------------------------------------

  /** A row judged again by the same findings is not changed, and there is no step left to announce. */
  lemma JudgingAgain(r: Row, f: Ingest.Findings, g: Ingest.Findings)
    requires g.verdict == f.verdict
    requires Ingest.SettleProduct(Ingest.JudgedRow(r, f).c, g.found) == Ingest.JudgedRow(r, f).c
    ensures var r' := Ingest.JudgedRow(r, f);
      && Ingest.JudgedRow(r', g) == r'
      && PathTo(r'.c.state, Ingest.StateFor(g.verdict.decision)) == []
  {
    hide PathTo;
    var to := Ingest.StateFor(f.verdict.decision);
    PathToArrivesOrStays(r.c.state, to);
    var r' := Ingest.JudgedRow(r, f);
    assert r'.trail + [] == r'.trail;
  }

  /** A table the first reconciliation wrote, with at most the review link of its own conflict set since. */
  ghost predicate Relinked(ks: seq<Conflicts.SourceConflict>, ks': seq<Conflicts.SourceConflict>, conflict: Option<nat>) {
    if conflict.None? then ks' == ks
    else
      var k := conflict.value;
      k < |ks| == |ks'| && ks' == ks[k := ks[k].(reviewItem := ks'[k].reviewItem)]
  }

  /** Reconciling the same story again finds the conflict it left, or none, and has nothing to say. */
  lemma ReconcilingAgain(os: seq<Conflicts.Observation>, ks: seq<Conflicts.SourceConflict>, a: Ingest.Assessment,
                         b: Ingest.Assessment, ks': seq<Conflicts.SourceConflict>, now: int)
    requires Coverage.OneOpenPerKey(ks) && SameStory(a, b) && (b.Assessed? ==> !b.recordable)
    requires Ingest.ReconcileConflict(os, ks, a, now).Success?
    requires var rec := Ingest.ReconcileConflict(os, ks, a, now).value; Relinked(rec.conflicts, ks', rec.outcome.conflict)
    ensures var rec := Ingest.ReconcileConflict(os, ks, a, now).value;
      var linked := if rec.outcome.conflict.Some? then ks'[rec.outcome.conflict.value].reviewItem else None;
      Ingest.ReconcileConflict(rec.observations, ks', b, now)
        == Success(Ingest.Reconciled(rec.observations, ks', Ingest.ConflictOutcome(rec.outcome.conflict, linked), []))
  {
    hide RecordObservation, Conflicts.Storable, Conflicts.ValidConflict;
    if a.Assessed? && a.subject.eligible {
      if a.verdict.status == Conflicts.Unresolved {
        UpsertingAgain(ks, Conflicts.NewConflict(a.subject, a.verdict, now), ks');
      } else {
        ClosingAgain(ks, a.subject.o.product, a.subject.o.channel);
      }
    }
  }

  lemma UpsertingAgain(ks: seq<Conflicts.SourceConflict>, k: Conflicts.SourceConflict, ks': seq<Conflicts.SourceConflict>)
    requires Coverage.OneOpenPerKey(ks) && k.open
    requires var (after, id, _) := UpsertOpenConflict(ks, k); Relinked(after, ks', Some(id))
    ensures UpsertOpenConflict(ks', k) == (ks', UpsertOpenConflict(ks, k).1, false)
  {
    var (after, id, _) := UpsertOpenConflict(ks, k);
    assert IsOpenFor(ks'[id], k.product, k.channel);
    forall j | 0 <= j < |ks'| && j != id ensures !IsOpenFor(ks'[j], k.product, k.channel) {
      assert ks'[j] == after[j] == ks[j];
    }
    assert OpenConflictFor(ks', k.product, k.channel) == Some(id);
    var stored := ks'[id];
    assert stored.(versions := k.versions, sources := k.sources, rank := k.rank, lastSeenAt := k.lastSeenAt) == stored;
    assert ks'[id := stored] == ks';
  }

  lemma ClosingAgain(ks: seq<Conflicts.SourceConflict>, product: string, channel: string)
    requires Coverage.OneOpenPerKey(ks)
    ensures var found := OpenConflictFor(ks, product, channel);
      found.Some? ==> forall actor, resolution, now ::
        OpenConflictFor(ks[found.value := Closed(ks[found.value], actor, resolution, now)], product, channel) == None
  {
  }

  /** The item a first routing left, described as this run would describe it and still worth showing. */
  ghost predicate Describes(items: seq<ReviewItem>, i: nat, d: ReviewItem, id: nat, source: string, b: Ingest.Assessment) {
    && i < |items| && IsOpen(items[i]) && Ingest.Redescribed(items[i], d) == items[i]
    && Ingest.StillInDispute(items[i].subject, d.subject, id, source, b)
  }

  /** Routing leaves an item that a second routing of the same story will recognise. */
  lemma RoutingDescribes(db: Db, id: nat, d: ReviewItem, source: string, a: Ingest.Assessment, b: Ingest.Assessment, outcome: Ingest.ConflictOutcome)
    requires IsOpen(d) && SameStory(a, b) && (a.Assessed? ==> a.subject.o.source == source)
    requires d.subject == CandidateSubject(id) || d.subject.ConflictSubject?
    requires outcome.conflict.None? ==> outcome.linked.None?
    requires outcome.conflict.Some? ==> outcome.conflict.value < |db.conflicts| && db.conflicts[outcome.conflict.value].reviewItem == outcome.linked
    ensures var (next, i, _) := Ingest.RouteToReview(db, id, d, source, a, outcome);
      && Describes(next.items, i, d, id, source, b)
      && (outcome.conflict.None? ==> next.items[i].subject == d.subject)
      && Relinked(db.conflicts, next.conflicts, outcome.conflict)
      && (outcome.conflict.Some? ==> next.conflicts[outcome.conflict.value].reviewItem == Some(i))
      && |next.rows| == |db.rows| && (id < |db.rows| ==> next.rows[id] == db.rows[id])
  {
    var existing := Ingest.OpenItemFor(db.items, outcome, d.subject);
    if existing.Some? {
      DisputeIsTheSame(db.items[existing.value].subject, d.subject, id, source, a, b);
    }
  }

  lemma DisputeIsTheSame(s: Subject, d: Subject, id: nat, source: string, a: Ingest.Assessment, b: Ingest.Assessment)
    requires SameStory(a, b) && (a.Assessed? ==> a.subject.o.source == source)
    ensures Ingest.StillInDispute(s, d, id, source, a) <==> Ingest.StillInDispute(s, d, id, source, b)
  {
    if a.Assessed? && s.CandidateSubject? {
      if exists c | c in a.others :: c.o.source != source && c.eligible && c.o.candidate == s.candidate {
        var c :| c in a.others && c.o.source != source && c.eligible && c.o.candidate == s.candidate;
        assert c in b.others;
      }
      if exists c | c in b.others :: c.o.source != source && c.eligible && c.o.candidate == s.candidate {
        var c :| c in b.others && c.o.source != source && c.eligible && c.o.candidate == s.candidate;
        assert c in a.others;
      }
    }
  }

  /** Routing once more changes nothing when the queue already describes the decision. */
  lemma RoutingAgain(db: Db, id: nat, d: ReviewItem, source: string, b: Ingest.Assessment, outcome: Ingest.ConflictOutcome, i: nat)
    requires Coverage.OneOpenPerSubject(db.items) && Describes(db.items, i, d, id, source, b)
    requires if outcome.conflict.Some? then outcome.linked == Some(i) else outcome.linked.None? && db.items[i].subject == d.subject
    ensures Ingest.RouteToReview(db, id, d, source, b, outcome) == (db, i, [])
  {
    assert Ingest.OpenItemFor(db.items, outcome, d.subject) == Some(i);
    assert Ingest.ChooseItem(db.items, i, d, id, source, b) == (i, false);
    assert db.items[i := db.items[i]] == db.items;
  }

  /** The description a run files depends on the story it heard, not on when it heard it. */
  lemma DescribingAgain(w: World, c: Candidate, id: nat, f: Ingest.Findings, g: Ingest.Findings,
                        outcome: Ingest.ConflictOutcome, again: Ingest.ConflictOutcome, now: int)
    requires g.src == f.src && g.verdict == f.verdict && SameStory(f.a, g.a) && again.conflict == outcome.conflict
    requires f.verdict.decision == Gates.ReviewRequired || outcome.conflict.Some?
    ensures Ingest.DesiredItem(w, c, id, g.src, g.verdict, g.a, again, now)
      == Ingest.DesiredItem(w, c, id, f.src, f.verdict, f.a, outcome, now)
  {
    hide Gates.ReviewKindFor, Gates.FailingGate, MergeParticipants;
    if f.a.Assessed? {
      assert forall x :: x in Ingest.DisputingCandidates(f.a) <==> x in Ingest.DisputingCandidates(g.a);
      assert Ingest.DisputingCandidates(f.a) == Ingest.DisputingCandidates(g.a);
    }
  }

  // ---------------------------------------------------------------------------------------------
  // The theorem
  // ---------------------------------------------------------------------------------------------

  /** What the first validation leaves behind, as the second one needs it. */
  lemma FirstLeaves(db: Db, w: World, now: int, id: nat)
    requires Uniqueness.OneOpen(db) && Ingest.Validate(db, w, now, id).Success?
    requires Ingest.Inspect(db, w, now, id).Success?
    ensures Ingest.Reconcile(db, w, now, id).Success?
    ensures var f, rec, v := Ingest.Inspect(db, w, now, id).value, Ingest.Reconcile(db, w, now, id).value, Ingest.Validate(db, w, now, id).value;
      && Rereads(db, v.db, id, f, now)
      && v.db.rows[id] == Ingest.JudgedRow(db.rows[id], f)
      && v.db.observations == rec.observations
      && v.db.jobs == (if f.verdict.decision == Gates.Passed then db.jobs + {id} else db.jobs)
      && Relinked(rec.conflicts, v.db.conflicts, rec.outcome.conflict)
  {
    hide Ingest.Validate, Ingest.Inspect, Gates.Judge, Ingest.RouteToReview, Ingest.Priority, Ingest.ReviewPayload,
      Ingest.ReconcileConflict, Ingest.BuildContext, Ingest.Assess, Uniqueness.OneOpen, PathTo;
    Ingest.ValidationAnatomy(db, w, now, id);
    var f, rec := Ingest.Inspect(db, w, now, id).value, Ingest.Reconcile(db, w, now, id).value;
    Observations.ObservationsAfter(db, w, now, id);
    ReconciliationShape(db, db.observations, f.a, now);
    if Ingest.NeedsItem(f, rec) {
      var judged := Ingest.Judged(db, f, rec, id, now);
      var d := Ingest.DesiredItem(w, judged.rows[id].c, id, f.src, f.verdict, f.a, rec.outcome, now);
      Ingest.RoutingOnlyMovesQueue(judged, id, d, db.rows[id].c.source, f.a, rec.outcome);
      Observations.SubjectDescribesCandidate(db, w, now, id);
      SameStoryIsReflexive(f.a);
      RoutingDescribes(judged, id, d, db.rows[id].c.source, f.a, f.a, rec.outcome);
    }
  }

  lemma SameStoryIsReflexive(a: Ingest.Assessment)
    ensures SameStory(a, a)
  {
  }

  /** A conflict a reconciliation reports is in its table, with the link it reports. */
  lemma ReconciliationShape(db: Db, os: seq<Conflicts.Observation>, a: Ingest.Assessment, now: int)
    requires Ingest.ReconcileConflict(os, db.conflicts, a, now).Success?
    ensures var rec := Ingest.ReconcileConflict(os, db.conflicts, a, now).value;
      if rec.outcome.conflict.Some? then
        rec.outcome.conflict.value < |rec.conflicts| && rec.conflicts[rec.outcome.conflict.value].reviewItem == rec.outcome.linked
      else rec.outcome.linked.None?
  {
  }

  /** The second validation's routing, when there is one. */
  lemma SecondRouting(db: Db, w: World, now: int, id: nat, b: Ingest.Assessment)
    requires Uniqueness.OneOpen(db) && Ingest.Validate(db, w, now, id).Success?
    requires Ingest.Inspect(db, w, now, id).Success? && Ingest.Reconcile(db, w, now, id).Success?
    requires SameStory(Ingest.Inspect(db, w, now, id).value.a, b)
    requires Ingest.NeedsItem(Ingest.Inspect(db, w, now, id).value, Ingest.Reconcile(db, w, now, id).value)
    ensures var f, rec, v := Ingest.Inspect(db, w, now, id).value, Ingest.Reconcile(db, w, now, id).value, Ingest.Validate(db, w, now, id).value;
      var conflict := rec.outcome.conflict;
      && id < |v.db.rows| && v.item.Some? && (conflict.Some? ==> conflict.value < |v.db.conflicts|)
      && var linked := if conflict.Some? then v.db.conflicts[conflict.value].reviewItem else None;
         Ingest.RouteToReview(v.db, id, Ingest.DesiredItem(w, v.db.rows[id].c, id, f.src, f.verdict, f.a, rec.outcome, now),
           db.rows[id].c.source, b, Ingest.ConflictOutcome(conflict, linked)) == (v.db, v.item.value, [])
  {
    hide Ingest.Validate, Ingest.Inspect, Gates.Judge, Ingest.RouteToReview, Ingest.JudgedRow, Ingest.Priority, Ingest.ReviewPayload,
      Ingest.ReconcileConflict, Ingest.BuildContext, Ingest.Assess, Coverage.ConflictsCovered, Coverage.ItemsSound, Coverage.OneOpenPerKey,
      Coverage.OneOpenPerSubject, SameStory, Describes;
    Ingest.ValidationAnatomy(db, w, now, id);
    var f, rec, v := Ingest.Inspect(db, w, now, id).value, Ingest.Reconcile(db, w, now, id).value, Ingest.Validate(db, w, now, id).value;
    Uniqueness.ValidationKeepsOneOpen(db, w, now, id);
    ReconciliationShape(db, db.observations, f.a, now);
    Observations.SubjectDescribesCandidate(db, w, now, id);
    var judged := Ingest.Judged(db, f, rec, id, now);
    var d := Ingest.DesiredItem(w, judged.rows[id].c, id, f.src, f.verdict, f.a, rec.outcome, now);
    RoutingDescribes(judged, id, d, db.rows[id].c.source, f.a, b, rec.outcome);
    var conflict := rec.outcome.conflict;
    var linked := if conflict.Some? then v.db.conflicts[conflict.value].reviewItem else None;
    RoutingAgain(v.db, id, d, db.rows[id].c.source, b, Ingest.ConflictOutcome(conflict, linked), v.item.value);
  }

  lemma DuplicateIsLookedUp(db: Db, w: World, now: int, id: nat)
    requires Ingest.Inspect(db, w, now, id).Success?
    ensures Ingest.Inspect(db, w, now, id).value.context.duplicate == Ingest.DuplicateOf(db.catalog, db.rows[id].c)
  {
    hide Ingest.Assess, Gates.Judge, Releases.FindDuplicate;
  }

  /** Everything but the queue is already as the second run would write it. */
  lemma JudgedAgain(db: Db, next: Db, w: World, f: Ingest.Findings, g: Ingest.Findings, rec': Ingest.Reconciled, id: nat, now: int)
    requires Rereads(db, next, id, f, now) && Echoes(db, next, w, id, f, g) && g.verdict == f.verdict
    requires next.rows[id] == Ingest.JudgedRow(db.rows[id], f)
    requires g.context.duplicate == Ingest.DuplicateOf(next.catalog, next.rows[id].c)
    requires g.context.duplicate.Some? ==> Refreshed(next, g.context.duplicate.value, now)
    requires rec'.observations == next.observations && rec'.conflicts == next.conflicts
    requires next.jobs == (if f.verdict.decision == Gates.Passed then db.jobs + {id} else db.jobs)
    ensures Ingest.Judged(next, g, rec', id, now) == next
    ensures Ingest.Announced(next, g, id) == [] && next.rows[id].c.source == db.rows[id].c.source
  {
    hide Ingest.JudgedRow, PathTo, SameStory, RecordObservation, Releases.DuplicateAmong, Rechecked;
    JudgingAgain(db.rows[id], f, g);
    assert next.rows[id := next.rows[id]] == next.rows;
    if g.context.duplicate.Some? {
      var r := g.context.duplicate.value;
      assert Releases.Touch(next.catalog, r, now).releases == next.catalog.releases;
    }
  }

  /** Validate, from its parts, when judging writes nothing. */
  lemma SecondValidationIs(db: Db, w: World, now: int, id: nat)
    requires Ingest.Inspect(db, w, now, id).Success? && Ingest.Reconcile(db, w, now, id).Success?
    requires var f, rec := Ingest.Inspect(db, w, now, id).value, Ingest.Reconcile(db, w, now, id).value;
      f.context.duplicate == Ingest.DuplicateOf(db.catalog, db.rows[id].c) && Ingest.Judged(db, f, rec, id, now) == db
    ensures var f, rec := Ingest.Inspect(db, w, now, id).value, Ingest.Reconcile(db, w, now, id).value;
      var moved := Ingest.Announced(db, f, id);
      Ingest.Validate(db, w, now, id) == Success(
        if !Ingest.NeedsItem(f, rec) then
          Ingest.Validation(db, rec.events + moved, f.verdict.decision, rec.outcome.conflict, None)
        else
          var c := db.rows[id].c;
          var (routed, item, events) := Ingest.RouteToReview(db, id,
            Ingest.DesiredItem(w, c, id, f.src, f.verdict, f.a, rec.outcome, now), c.source, f.a, rec.outcome);
          Ingest.Validation(routed, rec.events + moved + events, f.verdict.decision, rec.outcome.conflict, Some(item)))
  {
    hide Ingest.Inspect, Ingest.Reconcile, Ingest.RouteToReview, Ingest.DesiredItem;
  }

  /** The release's verification time is already the present one. */
  predicate Refreshed(db: Db, r: nat, now: int) {
    r < |db.catalog.releases| && db.catalog.releases[r].lastVerifiedAt == now
  }

  /**
   Looking up the duplicate and the previous version of the product the run settles on, which the run
   does only for a product the candidate came with, would have made no difference to its verdict, and
   would have found no release still to be marked as verified.
   */
  ghost predicate LookupsAreMoot(db: Db, w: World, now: int, id: nat)
    requires Ingest.Inspect(db, w, now, id).Success?
  {
    var c, f := db.rows[id].c, Ingest.Inspect(db, w, now, id).value;
    var again := Rechecked(db, w, c, f);
    && Gates.Judge(c, again).results == f.verdict.results
    && (again.duplicate.Some? ==> again.duplicate == f.context.duplicate || Refreshed(db, again.duplicate.value, now))
  }

  /** A candidate that came with its product has had its lookups. */
  lemma CarriedProductMakesLookupsMoot(db: Db, w: World, now: int, id: nat)
    requires Ingest.Inspect(db, w, now, id).Success? && db.rows[id].c.product != ""
    ensures LookupsAreMoot(db, w, now, id)
  {
    hide Ingest.Assess, Gates.Judge, Ingest.ResolveProduct, Releases.FindDuplicate, Releases.LatestForProduct;
  }

  /** What the second run must write before its routing, which touches neither. */
  lemma SecondWrites(db: Db, w: World, now: int, id: nat)
    requires Ingest.Validate(db, w, now, id).Success?
    ensures Ingest.Inspect(db, w, now, id).Success?
    ensures var f, next := Ingest.Inspect(db, w, now, id).value, Ingest.Validate(db, w, now, id).value.db;
      && id < |next.rows| && next.rows[id].verdict == f.verdict.results
      && (f.context.duplicate.Some? ==> Refreshed(next, f.context.duplicate.value, now))
  {
    hide Ingest.Validate, Ingest.Inspect, Gates.Judge, Ingest.RouteToReview, Ingest.DesiredItem, Ingest.ReconcileConflict,
      Ingest.BuildContext, Ingest.Assess, PathTo;
    Ingest.ValidationAnatomy(db, w, now, id);
    var f, rec := Ingest.Inspect(db, w, now, id).value, Ingest.Reconcile(db, w, now, id).value;
    if Ingest.NeedsItem(f, rec) {
      var judged := Ingest.Judged(db, f, rec, id, now);
      Ingest.RoutingOnlyMovesQueue(judged, id,
        Ingest.DesiredItem(w, judged.rows[id].c, id, f.src, f.verdict, f.a, rec.outcome, now),
        db.rows[id].c.source, f.a, rec.outcome);
    }
  }

  /** The release the second run would touch is verified now, unless only the settled product brings it up. */
  lemma TouchedAlready(db: Db, next: Db, id: nat, w: World, f: Ingest.Findings, g: Ingest.Findings, now: int, r: nat)
    requires Rereads(db, next, id, f, now) && Echoes(db, next, w, id, f, g) && g.context.duplicate == Some(r)
    ensures Refreshed(next, r, now) <==> (Some(r) == f.context.duplicate || Refreshed(db, r, now))
  {
    hide SameStory, RecordObservation, Gates.Judge, Releases.FindDuplicate, Releases.LatestForProduct;
  }

  /**
   Validation is idempotent as a step exactly when its lookups are moot: delivering the job again at
   the same clock reading then succeeds, leaves every table as the first delivery left it, reports the
   same decision, conflict and item, and announces nothing. A candidate that came with its product
   always meets the condition.
   */
  lemma ValidatingAgainChangesNothingIff(db: Db, w: World, now: int, id: nat)
    requires Uniqueness.OneOpen(db) && Observations.KeysUnique(db.observations) && Ingest.Validate(db, w, now, id).Success?
    ensures Ingest.Inspect(db, w, now, id).Success?
    ensures var v := Ingest.Validate(db, w, now, id).value;
      Ingest.Validate(v.db, w, now, id) == Success(v.(events := [])) <==> LookupsAreMoot(db, w, now, id)
    ensures db.rows[id].c.product != "" ==> LookupsAreMoot(db, w, now, id)
  {
    hide Ingest.Validate, Ingest.Inspect, Ingest.RouteToReview, Ingest.DesiredItem, Ingest.ReconcileConflict, Uniqueness.OneOpen,
      Relinked, Rereads, Observations.KeysUnique, LookupsAreMoot, Echoes, Gates.Judge, Ingest.JudgedRow;
    Ingest.ValidationAnatomy(db, w, now, id);
    var v := Ingest.Validate(db, w, now, id).value;
    FirstLeaves(db, w, now, id);
    InspectingAgain(db, v.db, w, now, id);
    MootIsSameVerdict(db, v.db, w, now, id);
    if db.rows[id].c.product != "" { CarriedProductMakesLookupsMoot(db, w, now, id); }
    if LookupsAreMoot(db, w, now, id) {
      RepeatsWhenMoot(db, w, now, id);
    } else if Ingest.Validate(v.db, w, now, id) == Success(v.(events := [])) {
      SecondWrites(db, w, now, id);
      SecondWrites(v.db, w, now, id);
      assert false;
    }
  }

  /** The condition, in terms of what the second run finds. */
  lemma MootIsSameVerdict(db: Db, next: Db, w: World, now: int, id: nat)
    requires Ingest.Inspect(db, w, now, id).Success? && Ingest.Inspect(next, w, now, id).Success?
    requires var f, g := Ingest.Inspect(db, w, now, id).value, Ingest.Inspect(next, w, now, id).value;
      && Rereads(db, next, id, f, now) && Echoes(db, next, w, id, f, g)
    ensures var f, g := Ingest.Inspect(db, w, now, id).value, Ingest.Inspect(next, w, now, id).value;
      && (LookupsAreMoot(db, w, now, id) ==> g.verdict == f.verdict)
      && (LookupsAreMoot(db, w, now, id) <==>
            g.verdict.results == f.verdict.results && (g.context.duplicate.Some? ==> Refreshed(next, g.context.duplicate.value, now)))
  {
    hide SameStory, RecordObservation, Gates.RunGates, Ingest.Assess, Ingest.ResolveProduct, Releases.Touch, Replay,
      Ingest.SettleProduct, Ingest.DuplicateOf, Ingest.PreviousVersion;
    var f, g := Ingest.Inspect(db, w, now, id).value, Ingest.Inspect(next, w, now, id).value;
    var c := db.rows[id].c;
    ResultsDetermineVerdict(c, f.context, 10);
    ResultsDetermineVerdict(c, g.context, 10);
    if g.context.duplicate.Some? { TouchedAlready(db, next, id, w, f, g, now, g.context.duplicate.value); }
  }

  lemma RepeatsWhenMoot(db: Db, w: World, now: int, id: nat)
    requires Uniqueness.OneOpen(db) && Observations.KeysUnique(db.observations) && Ingest.Validate(db, w, now, id).Success?
    requires Ingest.Inspect(db, w, now, id).Success? && LookupsAreMoot(db, w, now, id)
    ensures var v := Ingest.Validate(db, w, now, id).value;
      Ingest.Validate(v.db, w, now, id) == Success(v.(events := []))
  {
    hide Ingest.Validate, Ingest.Inspect, Gates.Judge, Ingest.RouteToReview, Ingest.JudgedRow, Ingest.DesiredItem,
      Ingest.ReconcileConflict, Ingest.BuildContext, Ingest.Assess, Coverage.OneOpenPerKey, Coverage.OneOpenPerSubject, SameStory, Relinked,
      Rereads, Ingest.ResolveProduct,
      PathTo, Observations.KeysUnique, LookupsAreMoot, Refreshed, Rechecked;
    Ingest.ValidationAnatomy(db, w, now, id);
    var f, rec, v := Ingest.Inspect(db, w, now, id).value, Ingest.Reconcile(db, w, now, id).value, Ingest.Validate(db, w, now, id).value;
    FirstLeaves(db, w, now, id);
    InspectingAgain(db, v.db, w, now, id);
    MootIsSameVerdict(db, v.db, w, now, id);
    var g := Ingest.Inspect(v.db, w, now, id).value;
    DuplicateIsLookedUp(v.db, w, now, id);
    ReconcilingAgain(db.observations, db.conflicts, f.a, g.a, v.db.conflicts, now);
    var rec' := Ingest.Reconcile(v.db, w, now, id).value;
    JudgedAgain(db, v.db, w, f, g, rec', id, now);
    if Ingest.NeedsItem(f, rec) {
      SecondRouting(db, w, now, id, g.a);
      DescribingAgain(w, v.db.rows[id].c, id, f, g, rec.outcome, rec'.outcome, now);
    }
    SecondValidationIs(v.db, w, now, id);
    var none: seq<Event> := [];
    assert none + none == none && none + none + none == none;
  }

  /** In every reachable state, redelivering a validation job of a candidate that carries its product is harmless. */
  lemma RedeliveryChangesNothing(es: seq<Delivery>, w: World, now: int, id: nat)
    requires id < |Run(es).rows| && Run(es).rows[id].c.product != ""
    ensures var once := es + [ValidationJob(w, now, id)];
      Run(once + [ValidationJob(w, now, id)]) == Run(once)
  {
    hide Ingest.Validate, Ingest.Inspect, Uniqueness.OneOpen, LookupsAreMoot, Observations.KeysUnique;
    var job := ValidationJob(w, now, id);
    var once := es + [job];
    var twice := once + [job];
    assert once[..|once| - 1] == es && twice[..|twice| - 1] == once;
    Uniqueness.RunsKeepOneOpen(es);
    Observations.RunsKeepObservations(es);
    if Ingest.Validate(Run(es), w, now, id).Success? {
      ValidatingAgainChangesNothingIff(Run(es), w, now, id);
    }
  }

  /**
   A duplicate whose product only its hint names slips through once: the first run, having skipped the
   lookup, passes it and queues its publication; the same job delivered again rejects it.
   */
  lemma HintedDuplicatePassesOnce(db: Db, w: World, now: int, id: nat)
    requires Uniqueness.OneOpen(db) && Observations.KeysUnique(db.observations) && Ingest.Validate(db, w, now, id).Success?
    requires Ingest.Validate(db, w, now, id).value.decision == Gates.Passed
    requires Ingest.Inspect(db, w, now, id).Success?
    requires Ingest.DuplicateOf(db.catalog, Ingest.SettleProduct(db.rows[id].c, Ingest.Inspect(db, w, now, id).value.found)).Some?
    ensures var next := Ingest.Validate(db, w, now, id).value.db;
      && id in next.jobs
      && Ingest.Inspect(next, w, now, id).Success?
      && Ingest.Inspect(next, w, now, id).value.verdict.decision == Gates.RejectedBy
  {
    hide Ingest.Validate, Ingest.Inspect, Gates.Judge, Ingest.BuildContext, Ingest.Assess, Uniqueness.OneOpen, SameStory,
      Relinked, Rereads, Ingest.ResolveProduct, Ingest.JudgedRow, Observations.KeysUnique, Ingest.DuplicateOf,
      Ingest.DesiredItem, Ingest.RouteToReview, Ingest.ReconcileConflict, PathTo, Ingest.SettleProduct, Releases.Touch;
    var next := Ingest.Validate(db, w, now, id).value.db;
    Ingest.ValidationAnatomy(db, w, now, id);
    FirstLeaves(db, w, now, id);
    InspectingAgain(db, next, w, now, id);
    DuplicateIsRejected(db.rows[id].c, Ingest.Inspect(next, w, now, id).value.context);
  }

  lemma DuplicateIsRejected(c: Candidate, ctx: Gates.Context)
    ensures ctx.duplicate.Some? ==> Gates.Judge(c, ctx).decision == Gates.RejectedBy
  {
    Gates.VerdictMeaning(c, ctx);
    if ctx.duplicate.Some? { assert Gates.OutcomeOf(Gates.DuplicateGate, c, ctx) == Gates.RejectedBy; }
  }

  // ---------------------------------------------------------------------------------------------
  // Such a duplicate
  // ---------------------------------------------------------------------------------------------

  const EXAMPLE_VERSION: VersionString := (assert !IsSpace("1.0"[0]); Version("1.0", "1.0"))

  const EXAMPLE_SOURCE := Source("vendor", true, true, Conflicts.OfficialManufacturer, Active, Allowed, Approved)

  /** One official source whose hints all name one product. */
  function ExampleWorld(): World {
    World(map["source" := EXAMPLE_SOURCE], (vendor, hint) => ["product"], (previous, version) => false,
      (gate, quality, official, confidence, kind, conflicted, product) => 0, 0.0, 0, 0)
  }

  function ExampleCandidate(key: string, product: string, state: State, release: Option<nat>): Candidate {
    Candidate("source", key, Some(0), product, "hint", Unmatched, EXAMPLE_VERSION, Some(Firmware), None, "",
      PartialDates.UNKNOWN_DATE, 1.0, state, release, 1)
  }

  /** A published release, and a new candidate with the same version that only its hint ties to the product. */
  function ExampleDb(): Db {
    Db([Row(ExampleCandidate("a", "product", Published, Some(0)), [], [Extracted, Normalized, ValidationPending, Validated, Published]),
        Row(ExampleCandidate("b", "", Extracted, None), [], [Extracted])],
      Releases.Catalog([Releases.Release("vendor", EXAMPLE_VERSION, Some(Firmware), "", PartialDates.UNKNOWN_DATE, 1, 2, 2, 0, Some(0), 1.0, false)],
        [Releases.Mapping(0, "product", "", true)]),
      [], [], [], {0}, [])
  }

  /** The first delivery passes the duplicate and queues its publication; the second one rejects it. */
  lemma HintedDuplicateExample()
    ensures var db, w := ExampleDb(), ExampleWorld();
      && Ingest.Validate(db, w, 3, 1).Success? && Ingest.Validate(db, w, 3, 1).value.decision == Gates.Passed
      && var next := Ingest.Validate(db, w, 3, 1).value.db;
         && 1 in next.jobs
         && Ingest.Inspect(next, w, 3, 1).Success? && Ingest.Inspect(next, w, 3, 1).value.verdict.decision == Gates.RejectedBy
  {
    hide Ingest.Inspect, Ingest.Validate, ExampleDb, ExampleWorld, Ingest.DuplicateOf, Ingest.SettleProduct;
    ExampleFindings();
    ExampleDuplicate();
    ExampleValidates();
    HintedDuplicatePassesOnce(ExampleDb(), ExampleWorld(), 3, 1);
  }

  lemma ExampleFindings()
    ensures var db, w := ExampleDb(), ExampleWorld();
      && Ingest.Inspect(db, w, 3, 1).Success?
      && var f := Ingest.Inspect(db, w, 3, 1).value;
         && f.verdict.decision == Gates.Passed && f.a.Assessed? && f.a.others == [] && f.found.product == "product"
  {
    hide Gates.Judge;
    var db, w := ExampleDb(), ExampleWorld();
    var f := Ingest.Inspect(db, w, 3, 1).value;
    var c, ctx := db.rows[1].c, f.context;
    assert ctx.conflicting == [] by { Conflicts.VerdictMembers(f.a.subject, f.a.others); }
    forall g: Gates.Gate ensures Gates.OutcomeOf(g, c, ctx) == Gates.Passed {}
    Gates.VerdictMeaning(c, ctx);
  }

  lemma ExampleDuplicate()
    ensures Ingest.DuplicateOf(ExampleDb().catalog, ExampleCandidate("b", "product", Extracted, None)).Some?
    ensures forall m: Ingest.Match | m.product == "product" ::
      Ingest.DuplicateOf(ExampleDb().catalog, Ingest.SettleProduct(ExampleDb().rows[1].c, m)).Some?
  {
    hide Releases.DuplicateAmong;
    var cat := ExampleDb().catalog;
    assert Releases.IsDuplicate(cat, cat.mappings[0], "product", "1.0", "");
  }

  lemma ExampleValidates()
    ensures var db, w := ExampleDb(), ExampleWorld();
      && Ingest.Validate(db, w, 3, 1).Success? && Ingest.Validate(db, w, 3, 1).value.decision == Gates.Passed
      && Uniqueness.OneOpen(db) && Observations.KeysUnique(db.observations)
  {
    var db, w := ExampleDb(), ExampleWorld();
    ExampleFindings();
    ExampleReconciles();
    hide Gates.RunGates, Ingest.RouteToReview, Ingest.DesiredItem, PathTo, Ingest.ReconcileConflict, Ingest.Inspect;
  }

  lemma ExampleReconciles()
    ensures Ingest.Inspect(ExampleDb(), ExampleWorld(), 3, 1).Success?
    ensures Ingest.Reconcile(ExampleDb(), ExampleWorld(), 3, 1).Success?
  {
    ExampleFindings();
    hide Gates.RunGates;
    var a := Ingest.Inspect(ExampleDb(), ExampleWorld(), 3, 1).value.a;
    Conflicts.VerdictMembers(a.subject, a.others);
    assert a.verdict.status != Conflicts.Unresolved;
    assert !IsSpace("source"[0]) && !IsSpace("product"[0]) && !IsSpace("1.0"[0]);
    assert Conflicts.Storable(a.subject.o);
  }
}
