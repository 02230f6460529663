/** The ten deterministic gates: internal/domain/validation.go. */
module Gates {
  import opened Wrappers
  import opened Text
  import opened PartialDates
  import Candidates

  datatype Gate =
    | ProductIdentity | VersionPresent | SourceEligible | DuplicateGate | DateValid
    | VersionTransition | EvidenceRetained | ConfidenceThreshold | Applicability | MultiSourceAgree

  /** The fixed running order. */
  const GATE_ORDER: seq<Gate> := [
    ProductIdentity, VersionPresent, SourceEligible, DuplicateGate, DateValid,
    VersionTransition, EvidenceRetained, ConfidenceThreshold, Applicability, MultiSourceAgree]

  /** The 1-based place of a gate in the running order. */
  function Place(g: Gate): (n: nat)
    ensures 1 <= n <= 10 && GATE_ORDER[n - 1] == g
  {
    match g
    case ProductIdentity => 1
    case VersionPresent => 2
    case SourceEligible => 3
    case DuplicateGate => 4
    case DateValid => 5
    case VersionTransition => 6
    case EvidenceRetained => 7
    case ConfidenceThreshold => 8
    case Applicability => 9
    case MultiSourceAgree => 10
  }

  /** The gate at a place: the inverse of Place. */
  function GateAt(n: nat): (g: Gate)
    requires 1 <= n <= 10
    ensures Place(g) == n
  {
    GATE_ORDER[n - 1]
  }

  datatype Outcome = Passed | RejectedBy | ReviewRequired

  datatype GateResult = GateResult(gate: Gate, order: nat, outcome: Outcome)

  /** implausible is AssessTransition's verdict on the step from the previous version. */
  datatype Context = Context(
    now: int, productResolved: bool, productAmbiguous: bool, sourceEligible: bool, sourceOfficial: bool,
    duplicate: Option<nat>, implausible: bool, evidencePresent: bool, threshold: real,
    applicabilityKnown: bool, conflicting: seq<string>, outranked: seq<string>,
    futureTolerance: int, earliest: int)

  const DEFAULT_THRESHOLD: real := 0.85

  /** deciding is the gate whose detail becomes the verdict's reason. */
  datatype Verdict = Verdict(results: seq<GateResult>, decision: Outcome, deciding: Option<Gate>)

  /** GateIndex: a scan of the running order. */
  method GateIndex(g: Gate) returns (n: nat)
    ensures n == Place(g)
  {
    n := 1;
    while GATE_ORDER[n - 1] != g
      invariant 1 <= n <= Place(g)
      decreases 10 - n
    {
      n := n + 1;
    }
    assert GateAt(n) == g;
  }

  /** The policy of each gate on its own. */
  function OutcomeOf(g: Gate, c: Candidates.Candidate, ctx: Context): Outcome {
    match g
    case ProductIdentity =>
      if ctx.productAmbiguous then ReviewRequired else if !ctx.productResolved then RejectedBy else Passed
    case VersionPresent =>
      if c.version.raw == "" || Blank(c.version.normalized) then RejectedBy else Passed
    case SourceEligible => if !ctx.sourceEligible then RejectedBy else Passed
    case DuplicateGate => if ctx.duplicate.Some? then RejectedBy else Passed
    case DateValid =>
      if !c.releaseDate.Known() then Passed
      else if ctx.earliest != 0 && Midnight(c.releaseDate.anchor) < ctx.earliest then RejectedBy
      else if AfterInstant(c.releaseDate, ctx.now + ctx.futureTolerance) then ReviewRequired
      else Passed
    case VersionTransition => if ctx.implausible then ReviewRequired else Passed
    case EvidenceRetained => if !ctx.evidencePresent || c.evidence.None? then RejectedBy else Passed
    case ConfidenceThreshold =>
      if !ctx.sourceOfficial then ReviewRequired
      else if c.confidence < (if ctx.threshold <= 0.0 then DEFAULT_THRESHOLD else ctx.threshold) then ReviewRequired
      else Passed
    case Applicability => if !ctx.applicabilityKnown then ReviewRequired else Passed
    case MultiSourceAgree => if |ctx.conflicting| > 0 then ReviewRequired else Passed
  }

  /** The closure record of RunValidationGates: append the result, and let it move the decision. */
  function Record(v: Verdict, g: Gate, n: nat, outcome: Outcome): Verdict {
    Verdict(v.results + [GateResult(g, n, outcome)],
      if outcome == RejectedBy then RejectedBy
      else if outcome == ReviewRequired && v.decision != RejectedBy then ReviewRequired
      else v.decision,
      if outcome == RejectedBy || (outcome == ReviewRequired && v.decision != RejectedBy) then Some(g)
      else v.deciding)
  }

  /** The first n gates run in order, nothing running after a rejection. */
  function RunGates(c: Candidates.Candidate, ctx: Context, n: nat): (v: Verdict)
    requires n <= 10
    ensures |v.results| <= n
  {
    if n == 0 then Verdict([], Passed, None)
    else
      var before := RunGates(c, ctx, n - 1);
      if before.decision == RejectedBy then before
      else Record(before, GateAt(n), n, OutcomeOf(GateAt(n), c, ctx))
  }

  function Judge(c: Candidates.Candidate, ctx: Context): Verdict { RunGates(c, ctx, 10) }

  /** All ten gates recorded as passed, in running order. */
  predicate AllTenPassed(results: seq<GateResult>) {
    |results| == 10 && forall i | 0 <= i < 10 :: results[i] == GateResult(GateAt(i + 1), i + 1, Passed)
  }

  /** A gate among the first n is among the first n - 1 or is the one at n. */
  lemma PlacesUpTo(n: nat)
    requires 1 <= n <= 10
    ensures forall g: Gate :: Place(g) <= n <==> Place(g) <= n - 1 || g == GateAt(n)
  {
  }

  /** The results n gates leave behind, said without running them. */
  lemma {:induction false} RunGatesResults(c: Candidates.Candidate, ctx: Context, n: nat)
    requires n <= 10
    ensures var v := RunGates(c, ctx, n);
      && (forall i | 0 <= i < |v.results| ::
            v.results[i] == GateResult(GateAt(i + 1), i + 1, OutcomeOf(GateAt(i + 1), c, ctx)))
      && (forall i | 0 <= i < |v.results| - 1 :: v.results[i].outcome != RejectedBy)
      && (v.decision == RejectedBy ==> |v.results| > 0 && v.results[|v.results| - 1].outcome == RejectedBy)
      && (v.decision != RejectedBy ==> |v.results| == n && forall i | 0 <= i < n :: v.results[i].outcome != RejectedBy)
  {
    hide OutcomeOf, GateAt, Place, Record;
    if n > 0 {
      RunGatesResults(c, ctx, n - 1);
      RecordMeans(RunGates(c, ctx, n - 1), GateAt(n), n, OutcomeOf(GateAt(n), c, ctx));
    }
  }

  lemma RecordMeans(v: Verdict, g: Gate, n: nat, outcome: Outcome)
    ensures var r := Record(v, g, n, outcome);
      && r.results == v.results + [GateResult(g, n, outcome)]
      && (r.decision == RejectedBy <==> outcome == RejectedBy || v.decision == RejectedBy)
  {
  }

  /** The decision n gates lead to. */
  lemma {:induction false} RunGatesDecision(c: Candidates.Candidate, ctx: Context, n: nat)
    requires n <= 10
    ensures var v := RunGates(c, ctx, n);
      && (v.decision == RejectedBy <==> exists g: Gate | Place(g) <= n :: OutcomeOf(g, c, ctx) == RejectedBy)
      && (v.decision == Passed <==> forall g: Gate | Place(g) <= n :: OutcomeOf(g, c, ctx) == Passed)
  {
    hide OutcomeOf, GateAt, Place;
    if n > 0 {
      RunGatesDecision(c, ctx, n - 1);
      PlacesUpTo(n);
    }
  }

  /** A verdict's reason is the gate that rejected, or the last of those that asked for a human. */
  ghost predicate GivesReason(c: Candidates.Candidate, ctx: Context, v: Verdict) {
    && (v.deciding.None? <==> v.decision == Passed)
    && (v.deciding.Some? ==>
          && Place(v.deciding.value) <= |v.results| && OutcomeOf(v.deciding.value, c, ctx) == v.decision
          && forall g: Gate | Place(v.deciding.value) < Place(g) <= |v.results| :: OutcomeOf(g, c, ctx) == Passed)
  }

  lemma RecordingGivesReason(c: Candidates.Candidate, ctx: Context, v: Verdict, n: nat)
    requires GivesReason(c, ctx, v) && v.decision != RejectedBy && |v.results| + 1 == n <= 10
    ensures GivesReason(c, ctx, Record(v, GateAt(n), n, OutcomeOf(GateAt(n), c, ctx)))
  {
    hide OutcomeOf, GateAt, Place;
    PlacesUpTo(n);
    assert Place(GateAt(n)) == n;
  }

  lemma {:induction false} RunGatesGiveReason(c: Candidates.Candidate, ctx: Context, n: nat)
    requires n <= 10
    ensures GivesReason(c, ctx, RunGates(c, ctx, n))
  {
    hide OutcomeOf, GateAt, Place, Record, GivesReason;
    if n > 0 {
      RunGatesGiveReason(c, ctx, n - 1);
      RunGatesResults(c, ctx, n - 1);
      var before := RunGates(c, ctx, n - 1);
      if before.decision != RejectedBy { RecordingGivesReason(c, ctx, before, n); }
    } else {
      NoReason(c, ctx);
    }
  }

  lemma NoReason(c: Candidates.Candidate, ctx: Context)
    ensures GivesReason(c, ctx, Verdict([], Passed, None))
  {
  }

  /**
   The decision is a rejection exactly when some gate rejects, a pass exactly when all ten pass, and
   then, and only then, the recorded results are ten passes in running order.
   */
  lemma VerdictMeaning(c: Candidates.Candidate, ctx: Context)
    ensures var v := Judge(c, ctx);
      && (v.decision == RejectedBy <==> exists g: Gate :: OutcomeOf(g, c, ctx) == RejectedBy)
      && (v.decision == Passed <==> forall g: Gate :: OutcomeOf(g, c, ctx) == Passed)
      && (v.decision == Passed <==> AllTenPassed(v.results))
  {
    hide RunGates;
    var v := Judge(c, ctx);
    RunGatesResults(c, ctx, 10);
    RunGatesDecision(c, ctx, 10);
    if AllTenPassed(v.results) {
      forall g: Gate ensures OutcomeOf(g, c, ctx) == Passed {
        assert v.results[Place(g) - 1].outcome == Passed;
      }
    }
  }

  /** v is what some number of gates, none of them rejecting, left behind. */
  ghost predicate SoFar(c: Candidates.Candidate, ctx: Context, v: Verdict) {
    |v.results| <= 10 && v.decision != RejectedBy && v == RunGates(c, ctx, |v.results|)
  }

  /** One more block: a rejection is already the final verdict, anything else is one gate further on. */
  lemma Advances(c: Candidates.Candidate, ctx: Context, v: Verdict)
    requires SoFar(c, ctx, v) && |v.results| < 10
    ensures var n := |v.results|;
      var v' := Record(v, GateAt(n + 1), n + 1, OutcomeOf(GateAt(n + 1), c, ctx));
      if v'.decision == RejectedBy then v' == Judge(c, ctx) else SoFar(c, ctx, v')
  {
    var n := |v.results|;
    if OutcomeOf(GateAt(n + 1), c, ctx) == RejectedBy { StoppedEarly(c, ctx, n + 1, 10); }
  }

  lemma Starts(c: Candidates.Candidate, ctx: Context)
    ensures SoFar(c, ctx, Verdict([], Passed, None))
  {
  }

  lemma Finishes(c: Candidates.Candidate, ctx: Context, v: Verdict)
    requires v.decision != RejectedBy && SoFar(c, ctx, v) && |v.results| == 10
    ensures v == Judge(c, ctx)
  {
  }

  /** The closure record of RunValidationGates, called for the next gate in order. */
  method Note(ghost c: Candidates.Candidate, ghost ctx: Context, before: Verdict, g: Gate, n: nat, outcome: Outcome)
    returns (v: Verdict)
    requires SoFar(c, ctx, before) && |before.results| + 1 == n <= 10
    requires Place(g) == n && outcome == OutcomeOf(g, c, ctx)
    ensures if outcome == RejectedBy then v == Judge(c, ctx) else v.decision != RejectedBy && SoFar(c, ctx, v) && |v.results| == n
  {
    Advances(c, ctx, before);
    v := Verdict(before.results + [GateResult(g, n, outcome)], before.decision, before.deciding);
    if outcome == RejectedBy || (outcome == ReviewRequired && v.decision != RejectedBy) {
      v := v.(decision := outcome, deciding := Some(g));
    }
  }

  /**
   RunValidationGates as it is written: ten blocks in a row, each recording one outcome, and a
   block that rejects returning at once.
   */
  method RunValidationGates(c: Candidates.Candidate, ctx: Context) returns (v: Verdict)
    ensures v == Judge(c, ctx)
  {
    v := Verdict([], Passed, None);
    hide SoFar, Judge, RunGates, Blank, Midnight, AfterInstant, GateAt;
    Starts(c, ctx);
    var outcome: Outcome;

    outcome := if ctx.productAmbiguous then ReviewRequired else if !ctx.productResolved then RejectedBy else Passed;
    v := Note(c, ctx, v, ProductIdentity, 1, outcome);
    if outcome == RejectedBy { return; }

    outcome := if c.version.raw == "" || Blank(c.version.normalized) then RejectedBy else Passed;
    v := Note(c, ctx, v, VersionPresent, 2, outcome);
    if outcome == RejectedBy { return; }

    outcome := if !ctx.sourceEligible then RejectedBy else Passed;
    v := Note(c, ctx, v, SourceEligible, 3, outcome);
    if outcome == RejectedBy { return; }

    outcome := if ctx.duplicate.Some? then RejectedBy else Passed;
    v := Note(c, ctx, v, DuplicateGate, 4, outcome);
    if outcome == RejectedBy { return; }

    if !c.releaseDate.Known() {
      outcome := Passed;
    } else if ctx.earliest != 0 && Midnight(c.releaseDate.anchor) < ctx.earliest {
      outcome := RejectedBy;
    } else if AfterInstant(c.releaseDate, ctx.now + ctx.futureTolerance) {
      outcome := ReviewRequired;
    } else {
      outcome := Passed;
    }
    v := Note(c, ctx, v, DateValid, 5, outcome);
    if outcome == RejectedBy { return; }

    outcome := if ctx.implausible then ReviewRequired else Passed;
    v := Note(c, ctx, v, VersionTransition, 6, outcome);

    outcome := if !ctx.evidencePresent || c.evidence.None? then RejectedBy else Passed;
    v := Note(c, ctx, v, EvidenceRetained, 7, outcome);
    if outcome == RejectedBy { return; }

    var threshold := if ctx.threshold <= 0.0 then DEFAULT_THRESHOLD else ctx.threshold;
    outcome := if !ctx.sourceOfficial then ReviewRequired else if c.confidence < threshold then ReviewRequired else Passed;
    v := Note(c, ctx, v, ConfidenceThreshold, 8, outcome);

    outcome := if !ctx.applicabilityKnown then ReviewRequired else Passed;
    v := Note(c, ctx, v, Applicability, 9, outcome);

    outcome := if |ctx.conflicting| > 0 then ReviewRequired else if |ctx.outranked| > 0 then Passed else Passed;
    v := Note(c, ctx, v, MultiSourceAgree, 10, outcome);
    Finishes(c, ctx, v);
  }

  lemma {:induction false} StoppedEarly(c: Candidates.Candidate, ctx: Context, n: nat, m: nat)
    requires n <= m <= 10 && RunGates(c, ctx, n).decision == RejectedBy
    ensures RunGates(c, ctx, m) == RunGates(c, ctx, n)
  {
    if n < m { StoppedEarly(c, ctx, n, m - 1); }
  }

  /** The first gate that did not pass, which the review item names. */
  function FailingGate(results: seq<GateResult>): Option<Gate> {
    if |results| == 0 then None
    else if results[0].outcome != Passed then Some(results[0].gate)
    else FailingGate(results[1..])
  }

  datatype ReviewKind = ProductMatchAmbiguous | ImplausibleTransition | MultiSourceConflict | LowConfidence

  function ReviewKindFor(results: seq<GateResult>): ReviewKind {
    if |results| == 0 then LowConfidence
    else if results[0].outcome != ReviewRequired then ReviewKindFor(results[1..])
    else
      match results[0].gate
      case ProductIdentity => ProductMatchAmbiguous
      case VersionTransition => ImplausibleTransition
      case MultiSourceAgree => MultiSourceConflict
      case _ => LowConfidence
  }
}
