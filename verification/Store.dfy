/**
 The use cases as they are written: one write at a time against repositories held in memory, inside a
 unit of work that puts everything back when a step fails. Every method is proved to do exactly what
 Ingest.dfy and Review.dfy say of the tables as values.
 */
module Store {
  import opened Wrappers
  import opened Text
  import opened PartialDates
  import opened Candidates
  import opened Tables
  import Gates
  import Conflicts
  import Releases
  import Ingest
  import Review

  // ---------------------------------------------------------------------------------------------
  // Loops that only read
  // ---------------------------------------------------------------------------------------------

  /** The loop of pathTo: keep each state of the chain that the walk can enter. */
  method WalkChain(from: State, chain: seq<State>) returns (out: seq<State>)
    ensures out == Walk(from, chain)
  {
    hide CanTransition;
    out := [];
    var cur := from;
    for i := 0 to |chain|
      invariant out + Walk(cur, chain[i..]) == Walk(from, chain)
    {
      assert chain[i..][1..] == chain[i + 1..];
      if cur == chain[i] { continue; }
      if CanTransition(cur, chain[i]) {
        assert out + ([chain[i]] + Walk(chain[i], chain[i + 1..])) == (out + [chain[i]]) + Walk(chain[i], chain[i + 1..]);
        out := out + [chain[i]];
        cur := chain[i];
      }
    }
    assert chain[|chain|..] == [] && out + [] == out;
  }

  /** pathTo. */
  method FindPath(from: State, to: State) returns (out: seq<State>)
    ensures out == PathTo(from, to)
  {
    hide CanTransition, Walk;
    if from == to { return []; }
    if CanTransition(from, to) { return [to]; }
    out := WalkChain(from, [Normalized, ValidationPending, to]);
  }

  /** failingGate. */
  method FindFailingGate(results: seq<Gates.GateResult>) returns (g: Option<Gates.Gate>)
    ensures g == Gates.FailingGate(results)
  {
    for i := 0 to |results|
      invariant Gates.FailingGate(results) == Gates.FailingGate(results[i..])
    {
      assert results[i..][1..] == results[i + 1..];
      if results[i].outcome == Gates.ReviewRequired || results[i].outcome == Gates.RejectedBy { return Some(results[i].gate); }
    }
    return None;
  }

  /** reviewKindFor. */
  method FindReviewKind(results: seq<Gates.GateResult>) returns (k: Gates.ReviewKind)
    ensures k == Gates.ReviewKindFor(results)
  {
    for i := 0 to |results|
      invariant Gates.ReviewKindFor(results) == Gates.ReviewKindFor(results[i..])
    {
      assert results[i..][1..] == results[i + 1..];
      if results[i].outcome != Gates.ReviewRequired { continue; }
      match results[i].gate {
        case ProductIdentity => return Gates.ProductMatchAmbiguous;
        case VersionTransition => return Gates.ImplausibleTransition;
        case MultiSourceAgree => return Gates.MultiSourceConflict;
        case _ => return Gates.LowConfidence;
      }
    }
    return Gates.LowConfidence;
  }

  /** The first claim read that is the source's own. */
  method FindOwnClaim(claims: seq<Conflicts.Claim>, source: string) returns (own: Option<Conflicts.Observation>)
    ensures own == OwnClaim(claims, source)
  {
    for i := 0 to |claims|
      invariant OwnClaim(claims, source) == OwnClaim(claims[i..], source)
    {
      assert claims[i..][1..] == claims[i + 1..];
      if claims[i].o.source == source { return Some(claims[i].o); }
    }
    return None;
  }

  /** disputingCandidateIDs. */
  method CollectDisputing(a: Ingest.Assessment) returns (ids: set<nat>)
    requires a.Assessed?
    ensures ids == Ingest.DisputingCandidates(a)
  {
    ids := {a.subject.o.candidate};
    for i := 0 to |a.others|
      invariant ids == {a.subject.o.candidate} +
        set c | c in a.others[..i] && c.o.source != a.subject.o.source && c.eligible :: c.o.candidate
    {
      var c := a.others[i];
      assert a.others[..i + 1] == a.others[..i] + [c];
      if c.o.source == a.subject.o.source || !c.eligible { continue; }
      ids := ids + {c.o.candidate};
    }
    assert a.others[..|a.others|] == a.others;
  }

  /** stillInDispute. */
  method IsStillInDispute(s: Subject, desired: Subject, id: nat, source: string, a: Ingest.Assessment) returns (still: bool)
    ensures still == Ingest.StillInDispute(s, desired, id, source, a)
  {
    if !s.CandidateSubject? { return !desired.CandidateSubject?; }
    if s.candidate == id { return true; }
    if a.Assessed? {
      for i := 0 to |a.others|
        invariant forall c | c in a.others[..i] :: c.o.source == source || !c.eligible || c.o.candidate != s.candidate
      {
        assert a.others[..i + 1] == a.others[..i] + [a.others[i]];
        if a.others[i].o.source == source || !a.others[i].eligible { continue; }
        if a.others[i].o.candidate == s.candidate { return true; }
      }
      assert a.others[..|a.others|] == a.others;
    }
    return false;
  }

  // ---------------------------------------------------------------------------------------------
  // The repositories
  // ---------------------------------------------------------------------------------------------

  /** ValidateResult, with the events published after the commit. */
  datatype Report = Report(events: seq<Event>, decision: Gates.Outcome, conflict: Option<nat>, item: Option<nat>)

  class Repositories {
    var rows: seq<Row>
    var catalog: Releases.Tables
    var observations: seq<Conflicts.Observation>
    var conflicts: seq<Conflicts.SourceConflict>
    var items: seq<ReviewItem>
    var jobs: set<nat>
    var audit: seq<AuditRow>

    constructor ()
      ensures View() == EMPTY
    {
      rows, catalog, observations, conflicts, items, jobs, audit := [], Releases.Catalog([], []), [], [], [], {}, [];
    }

    function View(): Db
      reads this
    {
      Db(rows, catalog, observations, conflicts, items, jobs, audit)
    }

    /** What a unit of work that failed puts back. */
    method Restore(saved: Db)
      modifies this
      ensures View() == saved
    {
      rows, catalog, observations, conflicts, items, jobs, audit :=
        saved.rows, saved.catalog, saved.observations, saved.conflicts, saved.items, saved.jobs, saved.audit;
    }

    /** UpdateState. */
    method UpdateState(id: nat, s: State)
      requires id < |rows|
      modifies this`rows
      ensures View() == UpdateStates(old(View()), id, [s])
    {
      var row := rows[id];
      rows := rows[id := row.(c := row.c.(state := s), trail := row.trail + [s])];
    }

    /** RecordObservation. */
    method Record(o: Conflicts.Observation)
      modifies this`observations
      ensures View() == old(View()).(observations := RecordObservation(old(observations), o))
    {
      var found := FindObservation(observations, o);
      if found.Some? {
        observations := observations[found.value := o.(firstObservedAt := observations[found.value].firstObservedAt)];
      } else {
        observations := observations + [o];
      }
    }

    /** UpsertOpenConflict. */
    method OpenOrRefresh(k: Conflicts.SourceConflict) returns (id: nat, created: bool)
      modifies this`conflicts
      ensures (conflicts, id, created) == UpsertOpenConflict(old(conflicts), k)
      ensures id < |conflicts|
    {
      var found := OpenConflictFor(conflicts, k.product, k.channel);
      if found.Some? {
        id, created := found.value, false;
        conflicts := conflicts[id := conflicts[id].(versions := k.versions, sources := k.sources, rank := k.rank, lastSeenAt := k.lastSeenAt)];
      } else {
        id, created := |conflicts|, true;
        conflicts := conflicts + [k];
      }
    }

    /** CloseOpenConflict. */
    method CloseOpen(product: string, channel: string, resolution: string, actor: string, now: int) returns (closed: bool)
      modifies this`conflicts
      ensures var found := OpenConflictFor(old(conflicts), product, channel);
        && closed == found.Some?
        && conflicts == if found.Some?
                        then old(conflicts)[found.value := Closed(old(conflicts)[found.value], actor, resolution, now)]
                        else old(conflicts)
    {
      var found := OpenConflictFor(conflicts, product, channel);
      closed := found.Some?;
      if closed { conflicts := conflicts[found.value := Closed(conflicts[found.value], actor, resolution, now)]; }
    }

    /** linkReviewItem. */
    method Link(outcome: Ingest.ConflictOutcome, item: nat)
      modifies this`conflicts
      ensures conflicts == Ingest.LinkReviewItem(old(conflicts), outcome, item)
    {
      if outcome.conflict.None? || outcome.linked == Some(item) { return; }
      if outcome.conflict.value < |conflicts| {
        conflicts := conflicts[outcome.conflict.value := conflicts[outcome.conflict.value].(reviewItem := Some(item))];
      }
    }

    /** Reviews.Resolve, which refuses an item that is not open. */
    method ResolveItem(item: nat, resolution: string, actor: string, now: int) returns (ok: bool)
      modifies this`items
      ensures ok == (item < |old(items)| && IsOpen(old(items)[item]))
      ensures items == if ok then old(items)[item := old(items)[item].(
        state := Resolved, resolution := resolution, resolvedBy := actor, resolvedAt := now)] else old(items)
    {
      ok := item < |items| && IsOpen(items[item]);
      if ok {
        items := items[item := items[item].(state := Resolved, resolution := resolution, resolvedBy := actor, resolvedAt := now)];
      }
    }

    /** ResolveConflict, which refuses a conflict that is not open. */
    method ResolveConflict(k: nat, resolution: string, actor: string, now: int) returns (ok: bool)
      modifies this`conflicts
      ensures ok == (k < |old(conflicts)| && old(conflicts)[k].open)
      ensures conflicts == if ok then old(conflicts)[k := Closed(old(conflicts)[k], actor, resolution, now)] else old(conflicts)
    {
      ok := k < |conflicts| && conflicts[k].open;
      if ok { conflicts := conflicts[k := Closed(conflicts[k], actor, resolution, now)]; }
    }

    // -------------------------------------------------------------------------------------------
    // Extraction
    // -------------------------------------------------------------------------------------------

    /** The loop body of ExtractCandidates, for one candidate. */
    method ExtractCandidate(source: string, collected: Candidate, now: int) returns (out: Result<bool, Error>)
      modifies this`rows
      ensures match Ingest.Extract(old(View()), source, collected, now)
        case Success(db) => View() == db && out == Success(rows != old(rows))
        case Failure(e) => View() == old(View()) && out == Failure(e)
    {
      var c := collected.(source := source, evidence := Some(|rows|), discoveredAt := now);
      var moved := TransitionTo(c.state, Extracted);
      if moved.None? { return Failure(InvalidTransition); }
      c := c.(state := Extracted);
      if !Ingest.ValidCandidate(c) { return Failure(Invalid); }
      var stored := false;
      for i := 0 to |rows|
        invariant stored <==> exists j | 0 <= j < i :: Ingest.SameCandidate(rows[j], c)
      {
        if Ingest.SameCandidate(rows[i], c) { stored := true; }
      }
      if !stored { rows := rows + [Row(c, [], [Extracted])]; }
      return Success(!stored);
    }

    // -------------------------------------------------------------------------------------------
    // Validation
    // -------------------------------------------------------------------------------------------

    /** transition: one UpdateState a step, and whether there was any. */
    method Transition(id: nat, to: State) returns (moved: bool)
      requires id < |rows|
      modifies this`rows
      ensures var steps := PathTo(old(rows[id].c.state), to);
        View() == UpdateStates(old(View()), id, steps) && moved == (|steps| > 0)
    {
      var steps := FindPath(rows[id].c.state, to);
      assert steps[..0] == [] && rows[id].trail + [] == rows[id].trail && rows[id := rows[id]] == rows;
      for i := 0 to |steps|
        invariant id < |rows| && View() == UpdateStates(old(View()), id, steps[..i])
      {
        assert steps[..i + 1] == steps[..i] + [steps[i]];
        StepByStep(old(View()), id, steps[..i], steps[i]);
        UpdateState(id, steps[i]);
      }
      assert steps[..|steps|] == steps;
      moved := |steps| > 0;
    }

    /** The part of buildContext that resolves the product. */
    method ResolveProduct(w: World, src: Source, c: Candidate) returns (m: Ingest.Match)
      ensures m == Ingest.ResolveProduct(w, src, c)
    {
      m := Ingest.Match(false, false, "");
      match c.matched {
        case Unique => m := m.(resolved := c.product != "");
        case Ambiguous => m := m.(ambiguous := true);
        case NoMatch =>
        case Unmatched =>
          if c.product != "" {
            m := m.(resolved := true);
          } else {
            var matches := w.resolve(src.vendor, c.hint);
            if |matches| == 1 {
              m := m.(resolved := true, product := matches[0]);
            } else if |matches| > 1 {
              m := m.(ambiguous := true);
            }
          }
      }
    }

    /** The part of buildContext that asks what the other sources say. */
    method AssessClaims(w: World, c: Candidate, id: nat, src: Source, product: string, now: int) returns (a: Ingest.Assessment)
      ensures a == Ingest.Assess(observations, w, c, id, src, product, now)
    {
      hide Conflicts.AssessSourceConflict, Conflicts.LaterObservation, ClaimsFor, OwnClaim, MayCollect;
      if product == "" { return Ingest.Skipped; }
      var subject := Ingest.SubjectClaim(c, id, src, product, now, now);
      var claims := ClaimsFor(observations, w, product, c.channel);
      var previous := FindOwnClaim(claims, c.source);
      if previous.Some? { subject := Ingest.SubjectClaim(c, id, src, product, now, previous.value.firstObservedAt); }
      var verdict := Conflicts.CollectVerdict(subject, claims);
      var recordable := MayCollect(src) && !Blank(c.version.normalized)
        && (previous.None? || Conflicts.LaterObservation(subject.o, previous.value));
      a := Ingest.Assessed(subject, claims, verdict, recordable);
    }

    /** The part of buildContext that looks for a duplicate and for the previous version. */
    method LookUp(w: World, c: Candidate) returns (duplicate: Option<nat>, implausible: bool)
      ensures duplicate == Ingest.DuplicateOf(catalog, c)
      ensures implausible == w.implausible(Ingest.PreviousVersion(catalog, c), c.version)
    {
      hide Releases.FindDuplicate, Releases.LatestAmong, Releases.LatestComparison;
      duplicate := None;
      var previous := None;
      if c.product != "" {
        duplicate := Releases.FindDuplicate(catalog, c.product, c.version.normalized, c.channel);
        var latest := Releases.LatestForProduct(catalog, c.product, c.channel);
        if latest.Some? { previous := Some(catalog.releases[latest.value].version); }
      }
      implausible := w.implausible(previous, c.version);
    }

    /** buildContext. */
    method BuildContext(w: World, c: Candidate, id: nat, src: Source, now: int)
      returns (m: Ingest.Match, ctx: Gates.Context, a: Ingest.Assessment)
      ensures m == Ingest.ResolveProduct(w, src, c)
      ensures a == Ingest.Assess(observations, w, c, id, src, if c.product == "" then m.product else c.product, now)
      ensures ctx == Ingest.BuildContext(catalog, w, c, src, m, a, now) && ctx.duplicate == Ingest.DuplicateOf(catalog, c)
    {
      hide Ingest.Assess, Ingest.ResolveProduct, Ingest.DuplicateOf, Ingest.PreviousVersion, MayCollect;
      m := ResolveProduct(w, src, c);
      var duplicate, implausible := LookUp(w, c);
      ctx := Gates.Context(now, m.resolved, m.ambiguous, MayCollect(src), src.official && src.quality == Conflicts.OfficialManufacturer,
        duplicate, implausible, c.evidence.Some?, w.threshold, true, [], [], w.futureTolerance, w.earliest);
      a := AssessClaims(w, c, id, src, if c.product == "" then m.product else c.product, now);
      if a.Assessed? {
        ctx := ctx.(conflicting := a.verdict.conflictingVersions, outranked := a.verdict.outrankedVersions);
      }
    }

    /** reconcileConflict. A failure leaves the unit of work to undo what was recorded. */
    method ReconcileConflict(a: Ingest.Assessment, now: int) returns (out: Result<(Ingest.ConflictOutcome, seq<Event>), Error>)
      modifies this`observations, this`conflicts
      ensures var rec := Ingest.ReconcileConflict(old(observations), old(conflicts), a, now);
        if rec.Failure? then out == Failure(rec.error) else (
          && out == Success((rec.value.outcome, rec.value.events))
          && observations == rec.value.observations && conflicts == rec.value.conflicts)
    {
      if a.Skipped? { return Success((Ingest.NO_CONFLICT, [])); }
      if a.recordable {
        if !Conflicts.Storable(a.subject.o) { return Failure(Invalid); }
        Record(a.subject.o);
      }
      if !a.subject.eligible { return Success((Ingest.NO_CONFLICT, [])); }
      if a.verdict.status == Conflicts.Unresolved {
        var k := Conflicts.NewConflict(a.subject, a.verdict, now);
        if !Conflicts.ValidConflict(k) { return Failure(Invalid); }
        var id, created := OpenOrRefresh(k);
        var outcome := Ingest.ConflictOutcome(Some(id), conflicts[id].reviewItem);
        if !created { return Success((outcome, [])); }
        return Success((outcome, [SourceConflictDetected(id)]));
      }
      var resolution := "sources agree";
      if |a.verdict.outrankedVersions| > 0 { resolution := "resolved by source authority"; }
      var o := a.subject.o;
      var closed := CloseOpen(o.product, o.channel, resolution, Ingest.SYSTEM, now);
      if !closed { return Success((Ingest.NO_CONFLICT, [])); }
      return Success((Ingest.NO_CONFLICT, [SourceConflictResolved(o.product, o.channel, |a.verdict.outrankedVersions| > 0)]));
    }

    /** desiredReviewItem. */
    method DesiredItem(w: World, c: Candidate, id: nat, src: Source, v: Gates.Verdict, a: Ingest.Assessment,
                       outcome: Ingest.ConflictOutcome, now: int) returns (d: ReviewItem)
      requires v.decision == Gates.ReviewRequired || outcome.conflict.Some?
      ensures d == Ingest.DesiredItem(w, c, id, src, v, a, outcome, now)
    {
      var kind := FindReviewKind(v.results);
      var failing := FindFailingGate(v.results);
      var payload := Payload(failing, None, [], [], {});
      if outcome.conflict.Some? && a.Assessed? {
        var disputing := CollectDisputing(a);
        payload := Payload(failing, outcome.conflict,
          MergeParticipants(a.subject.o.normalized, a.verdict.conflictingVersions),
          MergeParticipants(a.subject.o.source, a.verdict.conflictingSources), disputing);
      }
      var conflicted := a.Assessed? && a.verdict.status == Conflicts.Unresolved;
      var priority := w.score(failing, src.quality, src.official, c.confidence, EffectiveType(c), conflicted, c.product);
      d := ReviewItem(kind, CandidateSubject(id), src.vendor, c.product, payload, priority, Open, "", "", 0, now);
      if v.decision == Gates.ReviewRequired { return; }
      d := d.(kind := Gates.MultiSourceConflict, subject := ConflictSubject(outcome.conflict.value));
    }

    /** releaseSuperseded. */
    method ReleaseSuperseded(superseded: Option<nat>) returns (pending: seq<Event>)
      modifies this`rows
      ensures (View(), pending) == Ingest.ReleaseSuperseded(old(View()),
        if superseded.Some? then Some(CandidateSubject(superseded.value)) else None)
    {
      if superseded.None? || superseded.value >= |rows| { return []; }
      if rows[superseded.value].c.state != HumanReviewRequired { return []; }
      UpdateState(superseded.value, Rejected);
      return [CandidateRejected(superseded.value)];
    }

    /** routeToReview, given the item this run would file. */
    method RouteToReview(id: nat, d: ReviewItem, source: string, a: Ingest.Assessment, outcome: Ingest.ConflictOutcome)
      returns (item: nat, pending: seq<Event>)
      modifies this`items, this`conflicts, this`rows
      ensures (View(), item, pending) == Ingest.RouteToReview(old(View()), id, d, source, a, outcome)
    {
      var existing := Ingest.OpenItemFor(items, outcome, d.subject);
      if existing.None? {
        item := |items|;
        items := items + [d];
        Link(outcome, item);
        return item, [];
      }
      item := existing.value;
      var stored := items[item];
      var superseded := None;
      var still := IsStillInDispute(stored.subject, d.subject, id, source, a);
      ghost var moves := false;
      if !still {
        var replacement := FindOpenBySubject(items, d.subject);
        if replacement.Some? && replacement.value != item {
          item := replacement.value;
          stored := items[item];
        } else {
          moves := true;
          if stored.subject.CandidateSubject? { superseded := Some(stored.subject.candidate); }
          stored := stored.(kind := d.kind, subject := d.subject);
        }
      }
      assert (item, moves) == Ingest.ChooseItem(old(items), existing.value, d, id, source, a);
      items := items[item := Ingest.Redescribed(stored, d)];
      Link(outcome, item);
      ghost var routed := View();
      pending := ReleaseSuperseded(superseded);
      assert Ingest.ReleaseSuperseded(routed, if moves then Some(old(items)[item].subject) else None)
        == Ingest.ReleaseSuperseded(routed, if superseded.Some? then Some(CandidateSubject(superseded.value)) else None);
    }

    method SetResolvedProduct(id: nat, product: string)
      requires id < |rows|
      modifies this`rows
      ensures rows == old(rows)[id := old(rows)[id].(c := old(rows)[id].c.(product := product, matched := Unique))]
    {
      rows := rows[id := rows[id].(c := rows[id].c.(product := product, matched := Unique))];
    }

    method RecordValidation(id: nat, results: seq<Gates.GateResult>)
      requires id < |rows|
      modifies this`rows
      ensures rows == old(rows)[id := old(rows)[id].(verdict := results)]
    {
      rows := rows[id := rows[id].(verdict := results)];
    }

    method TouchVerified(r: nat, now: int)
      requires r < |catalog.releases|
      modifies this`catalog
      ensures catalog == Releases.Touch(old(catalog), r, now)
    {
      catalog := catalog.(releases := catalog.releases[r := catalog.releases[r].(lastVerifiedAt := now)]);
    }

    /** The switch of ValidateCandidate: walk to the verdict's state, and queue the publication of a pass. */
    method ActOn(decision: Gates.Outcome, id: nat) returns (pending: seq<Event>)
      requires id < |rows|
      modifies this`rows, this`jobs
      ensures var steps := PathTo(old(rows[id].c.state), Ingest.StateFor(decision));
        && View() == UpdateStates(old(View()), id, steps).(jobs := if decision == Gates.Passed then old(jobs) + {id} else old(jobs))
        && pending == if |steps| > 0 then [Ingest.EventFor(decision, id)] else []
    {
      hide PathTo;
      pending := [];
      var moved;
      match decision {
        case Passed =>
          moved := Transition(id, Validated);
          if moved { pending := pending + [CandidateValidated(id)]; }
          jobs := jobs + {id};
        case ReviewRequired =>
          moved := Transition(id, HumanReviewRequired);
          if moved { pending := pending + [HumanReviewRequested(id)]; }
        case RejectedBy =>
          moved := Transition(id, Rejected);
          if moved { pending := pending + [CandidateRejected(id)]; }
      }
    }

    /**
     The first half of ValidateCandidate's unit of work: everything but the review queue. A failure
     leaves the unit of work to undo what was written.
     */
    method WriteVerdict(f: Ingest.Findings, id: nat, now: int) returns (out: Result<(Ingest.ConflictOutcome, seq<Event>), Error>)
      requires id < |rows| && f.context.duplicate == Ingest.DuplicateOf(catalog, rows[id].c)
      modifies this
      ensures var was := old(View());
        match Ingest.ReconcileConflict(was.observations, was.conflicts, f.a, now)
        case Success(rec) =>
          && View() == Ingest.Judged(was, f, rec, id, now)
          && out == Success((rec.outcome, rec.events + Ingest.Announced(was, f, id)))
        case Failure(e) => out == Failure(e)
    {
      hide Ingest.ReconcileConflict, PathTo, Ingest.DuplicateOf;
      ghost var was := View();
      var c := rows[id].c;
      if c.product == "" && f.found.product != "" {
        SetResolvedProduct(id, f.found.product);
      }
      RecordValidation(id, f.verdict.results);
      assert rows == was.rows[id := was.rows[id].(c := Ingest.SettleProduct(c, f.found), verdict := f.verdict.results)];
      var reconciled := ReconcileConflict(f.a, now);
      if reconciled.Failure? { return Failure(reconciled.error); }
      if f.context.duplicate.Some? { TouchVerified(f.context.duplicate.value, now); }
      var moved := ActOn(f.verdict.decision, id);
      assert rows == was.rows[id := Ingest.JudgedRow(was.rows[id], f)];
      return Success((reconciled.value.0, reconciled.value.1 + moved));
    }

    /** ValidateCandidate.Execute: what Ingest.Validate says, or nothing at all. */
    method ValidateCandidate(w: World, now: int, id: nat) returns (out: Result<Report, Error>)
      modifies this
      ensures match Ingest.Validate(old(View()), w, now, id)
        case Success(v) => View() == v.db && out == Success(Report(v.events, v.decision, v.conflict, v.item))
        case Failure(e) => View() == old(View()) && out == Failure(e)
    {
      hide Ingest.Assess, Ingest.ResolveProduct, Ingest.BuildContext, Gates.Judge, Ingest.ReconcileConflict, Ingest.RouteToReview,
        Ingest.DesiredItem, MayCollect, Ingest.Judged, Ingest.Announced, Ingest.DuplicateOf;
      if id >= |rows| { return Failure(NotFound); }
      var c := rows[id].c;
      if c.source !in w.sources { return Failure(NotFound); }
      var src := w.sources[c.source];
      var m, ctx, a := BuildContext(w, c, id, src, now);
      var verdict := Gates.RunValidationGates(c, ctx);
      var f := Ingest.Findings(src, m, a, ctx, verdict);
      assert Ingest.Inspect(View(), w, now, id) == Success(f);

      var saved := View();
      var written := WriteVerdict(f, id, now);
      if written.Failure? {
        Restore(saved);
        return Failure(written.error);
      }
      var (outcome, pending) := written.value;
      var item, released := None, [];
      if verdict.decision == Gates.ReviewRequired || outcome.conflict.Some? {
        JudgedKeepsRows(saved, f, Ingest.ReconcileConflict(saved.observations, saved.conflicts, a, now).value, id, now);
        var d := DesiredItem(w, rows[id].c, id, src, verdict, a, outcome, now);
        var filed;
        filed, released := RouteToReview(id, d, rows[id].c.source, a, outcome);
        item := Some(filed);
      }
      assert pending + [] == pending;
      out := Success(Report(pending + released, verdict.decision, outcome.conflict, item));
    }

    // -------------------------------------------------------------------------------------------
    // Publication
    // -------------------------------------------------------------------------------------------

    method ClearLatestFlag(product: string, channel: string)
      modifies this`catalog
      ensures catalog == old(catalog).(mappings := Releases.ClearLatestFlag(old(catalog).mappings, product, channel))
    {
      var ms := catalog.mappings;
      for i := 0 to |ms|
        invariant |ms| == |catalog.mappings|
        invariant forall j | 0 <= j < |ms| ::
          ms[j] == if j < i then Releases.Cleared(catalog.mappings[j], product, channel) else catalog.mappings[j]
      {
        if ms[i].product == product && ms[i].channel == channel { ms := ms[i := ms[i].(latest := false)]; }
      }
      assert ms == Releases.ClearLatestFlag(catalog.mappings, product, channel);
      catalog := catalog.(mappings := ms);
    }

    method InsertRelease(rel: Releases.Release, product: string, latest: bool) returns (r: nat)
      modifies this`catalog
      ensures r == |old(catalog).releases|
      ensures catalog == Releases.Catalog(old(catalog).releases + [rel],
        old(catalog).mappings + [Releases.Mapping(r, product, rel.channel, latest)])
    {
      r := |catalog.releases|;
      catalog := Releases.Catalog(catalog.releases + [rel], catalog.mappings + [Releases.Mapping(r, product, rel.channel, latest)]);
    }

    method SetPublishedRelease(id: nat, r: nat)
      requires id < |rows|
      modifies this`rows
      ensures rows == old(rows)[id := old(rows)[id].(c := old(rows)[id].c.(publishedRelease := Some(r)))]
    {
      rows := rows[id := rows[id].(c := rows[id].c.(publishedRelease := Some(r)))];
    }

    /** PublishRelease.Execute: what Ingest.PublishRelease says, or nothing at all. */
    method PublishRelease(w: World, now: int, id: nat) returns (out: Result<(Option<nat>, bool), Error>)
      modifies this`rows, this`catalog
      ensures match Ingest.PublishRelease(old(View()), w, now, id)
        case Success(p) => View() == p.db && out == Success((p.release, p.published))
        case Failure(e) => View() == old(View()) && out == Failure(e)
    {
      hide Releases.LatestAmong, Releases.LatestComparison, CompliancePermitsCollection, Releases.ValidRelease, Ingest.Committed;
      if id >= |rows| { return Failure(NotFound); }
      var c := rows[id].c;
      if c.state == State.Published { return Success((c.publishedRelease, false)); }
      if c.state != Validated && c.state != HumanReviewRequired { return Failure(InvalidTransition); }
      if c.product == "" { return Failure(Invalid); }
      if c.source !in w.sources { return Failure(NotFound); }
      var src := w.sources[c.source];
      if !CompliancePermitsCollection(src) { return Failure(NotPermitted); }
      var rel := Releases.Release(src.vendor, c.version, EffectiveType(c), c.channel, c.releaseDate,
        c.discoveredAt, now, now, id, c.evidence, c.confidence, false);
      if rel.firstObservedAt == 0 { rel := rel.(firstObservedAt := now); }
      if !Releases.ValidRelease(rel) { return Failure(Invalid); }
      var flag := false;
      var latest := Releases.LatestForProduct(catalog, c.product, c.channel);
      if Releases.EligibleForLatest(rel) {
        flag := if latest.Some? then Releases.LatestComparison(rel, catalog.releases[latest.value]) > 0 else true;
      }
      assert flag == Releases.TakesFlag(catalog, rel, c.product) && rel == Ingest.ReleaseFor(c, id, src, now);
      if Blank(c.product) { return Failure(Invalid); }
      var r := CommitPublication(id, rel, flag);
      return Success((Some(r), true));
    }

    /** The unit of work of PublishRelease. */
    method CommitPublication(id: nat, rel: Releases.Release, flag: bool) returns (r: nat)
      requires id < |rows| && rel.channel == rows[id].c.channel && flag == Releases.TakesFlag(catalog, rel, rows[id].c.product)
      modifies this`rows, this`catalog
      ensures View() == Ingest.Committed(old(View()), id, rel) && r == |old(catalog).releases|
    {
      hide Releases.TakesFlag;
      var c := rows[id].c;
      if flag { ClearLatestFlag(c.product, c.channel); }
      r := InsertRelease(rel, c.product, flag);
      UpdateState(id, State.Published);
      SetPublishedRelease(id, r);
    }

    // -------------------------------------------------------------------------------------------
    // Decision
    // -------------------------------------------------------------------------------------------

    /** The candidate's share of a decision, inside its unit of work. */
    method DecideCandidate(w: World, now: int, id: nat, accept: bool) returns (out: Result<(Option<nat>, bool), Error>)
      modifies this`rows, this`catalog
      ensures match Review.DecideCandidate(old(View()), w, now, id, accept)
        case Success(p) => View() == p.db && out == Success((p.release, p.published))
        case Failure(e) => out == Failure(e)
    {
      hide Ingest.PublishRelease;
      if accept {
        out := PublishRelease(w, now, id);
        return;
      }
      if id >= |rows| { return Failure(NotFound); }
      if TransitionTo(rows[id].c.state, Rejected).None? { return Failure(InvalidTransition); }
      if rows[id].c.state != Rejected {
        UpdateState(id, Rejected);
      } else {
        assert rows[id].trail + [] == rows[id].trail && rows[id := rows[id]] == rows;
      }
      return Success((None, false));
    }

    /** decide, given the item as the deciding page loaded it: what Review.Decide says, or nothing at all. */
    method Decide(w: World, now: int, item: nat, seen: ReviewItem, input: Review.Input, accept: bool)
      returns (out: Result<(Option<nat>, bool), Error>)
      modifies this
      ensures match Review.Decide(old(View()), w, now, item, seen, input, accept)
        case Success(d) => View() == d.db && out == Success((d.release, d.published))
        case Failure(e) => View() == old(View()) && out == Failure(e)
    {
      hide Review.DecideCandidate;
      if Blank(input.actor) { return Failure(Invalid); }
      if Blank(input.reason) { return Failure(Invalid); }
      if seen.state == Resolved || seen.state == Dismissed { return Failure(AlreadyDecided); }
      var resolution := Review.Resolution(input, accept);
      var before := Review.CandidateState(View(), seen.subject);
      var after := before;
      var saved := View();
      var ok := ResolveItem(item, resolution, input.actor, now);
      if !ok { return Failure(NotFound); }
      var release, published := None, false;
      if seen.subject.CandidateSubject? {
        var applied := DecideCandidate(w, now, seen.subject.candidate, accept);
        if applied.Failure? {
          Restore(saved);
          return Failure(applied.error);
        }
        release, published := applied.value.0, applied.value.1;
        after := Some(if accept then State.Published else Rejected);
      }
      if seen.payload.conflict.Some? {
        ok := ResolveConflict(seen.payload.conflict.value, resolution, input.actor, now);
        if !ok {
          Restore(saved);
          return Failure(NotFound);
        }
      }
      audit := audit + [AuditRow(item, input.actor, input.authenticated, accept, Trim(input.reason), before, after, release, now)];
      return Success((release, published));
    }
  }

  lemma JudgedKeepsRows(db: Db, f: Ingest.Findings, rec: Ingest.Reconciled, id: nat, now: int)
    requires id < |db.rows| && f.context.duplicate == Ingest.DuplicateOf(db.catalog, db.rows[id].c)
    ensures |Ingest.Judged(db, f, rec, id, now).rows| == |db.rows|
  {
  }

  lemma StepByStep(db: Db, id: nat, steps: seq<State>, s: State)
    requires id < |db.rows|
    ensures UpdateStates(UpdateStates(db, id, steps), id, [s]) == UpdateStates(db, id, steps + [s])
  {
    var r := db.rows[id];
    assert (r.trail + steps) + [s] == r.trail + (steps + [s]);
    assert db.rows[id := Walked(r, steps)][id := Walked(r, steps + [s])] == db.rows[id := Walked(r, steps + [s])];
  }
}
