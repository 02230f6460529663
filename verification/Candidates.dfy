/** Candidate releases and their state machine: internal/domain/candidate.go and the walk of ingest.go. */
module Candidates {
  import opened Wrappers
  import opened Text
  import opened PartialDates

  datatype State =
    | Discovered | Extracted | Normalized | ValidationPending | Validated
    | HumanReviewRequired | Rejected | Published | Superseded

  /** The declared edges. Nothing leads back from Published, and only review leads back from Rejected. */
  predicate CanTransition(from: State, to: State) {
    match from
    case Discovered => to in {Extracted, Rejected}
    case Extracted => to in {Normalized, Rejected, HumanReviewRequired}
    case Normalized => to in {ValidationPending, Rejected, HumanReviewRequired}
    case ValidationPending => to in {Validated, Rejected, HumanReviewRequired}
    case Validated => to in {State.Published, Rejected, HumanReviewRequired}
    case HumanReviewRequired => to in {Validated, Rejected, State.Published}
    case Rejected => to == HumanReviewRequired
    case Published => to == Superseded
    case Superseded => false
  }

  datatype MatchStatus = Unmatched | Unique | Ambiguous | NoMatch

  datatype ReleaseType = Firmware | OperatingSystem | SecurityUpdate | OtherType(name: string) | Advisory | UnknownType

  datatype Version = Version(raw: string, normalized: string)

  /** A version as its constructors build it: trimmed and non-blank in both forms. */
  predicate ProperVersion(v: Version) {
    !Blank(v.raw) && !Blank(v.normalized)
  }

  /** A VersionString: unset, or built by a constructor. */
  type VersionString = v: Version | v == Version("", "") || ProperVersion(v) witness Version("", "")

  datatype Candidate = Candidate(
    source: string, dedupeKey: string, evidence: Option<nat>,
    product: string, hint: string, matched: MatchStatus,
    version: VersionString, releaseType: Option<ReleaseType>, proposedType: Option<ReleaseType>,
    channel: string, releaseDate: PartialDate, confidence: real,
    state: State, publishedRelease: Option<nat>, discoveredAt: int)

  /** CandidateRelease.TransitionTo: the new state, or None for an edge that does not exist. */
  function TransitionTo(from: State, to: State): Option<State> {
    if from == to || CanTransition(from, to) then Some(to) else None
  }

  /** What the intermediate chain of pathTo adds after reaching cur. */
  function Walk(cur: State, chain: seq<State>): seq<State>
    decreases |chain|
  {
    if |chain| == 0 then []
    else if cur != chain[0] && CanTransition(cur, chain[0]) then [chain[0]] + Walk(chain[0], chain[1..])
    else Walk(cur, chain[1..])
  }

  function PathTo(from: State, to: State): seq<State> {
    if from == to then []
    else if CanTransition(from, to) then [to]
    else Walk(from, [Normalized, ValidationPending, to])
  }

  /** A sequence of states each reachable from the one before by a declared edge. */
  ghost predicate IsWalk(from: State, steps: seq<State>)
    decreases |steps|
  {
    |steps| == 0 || (CanTransition(from, steps[0]) && IsWalk(steps[0], steps[1..]))
  }

  function EndOf(from: State, steps: seq<State>): State {
    if |steps| == 0 then from else steps[|steps| - 1]
  }

  predicate IsVerdictState(s: State) { s in {Validated, HumanReviewRequired, Rejected} }

  lemma {:induction false} WalkIsLegal(cur: State, chain: seq<State>)
    ensures IsWalk(cur, Walk(cur, chain))
    decreases |chain|
  {
    if |chain| > 0 {
      if cur != chain[0] && CanTransition(cur, chain[0]) {
        WalkIsLegal(chain[0], chain[1..]);
        assert ([chain[0]] + Walk(chain[0], chain[1..]))[1..] == Walk(chain[0], chain[1..]);
      } else {
        WalkIsLegal(cur, chain[1..]);
      }
    }
  }

  /**
   pathTo yields declared edges only, and towards a verdict it either arrives or does not set out:
   it stays put exactly when the candidate is already there or the verdict cannot be reached from
   where it stands. Either way a second call has nothing left to walk.
   */
  lemma PathToArrivesOrStays(from: State, to: State)
    requires IsVerdictState(to)
    ensures IsWalk(from, PathTo(from, to))
    ensures EndOf(from, PathTo(from, to)) == to || PathTo(from, to) == []
    ensures PathTo(from, to) == [] <==>
      (from == to || from in {State.Published, Superseded}
        || (from == Discovered && to != Rejected) || (from == Rejected && to == Validated))
    ensures PathTo(EndOf(from, PathTo(from, to)), to) == []
    ensures State.Published !in PathTo(from, to)
  {
    if from != to && !CanTransition(from, to) {
      WalkIsLegal(from, [Normalized, ValidationPending, to]);
      var c0, c1, c2 := [Normalized, ValidationPending, to], [ValidationPending, to], [to];
      assert c0[1..] == c1 && c1[1..] == c2 && c2[1..] == [];
      forall s: State ensures Walk(s, []) == [] {}
      forall s: State ensures Walk(s, c2) == if s != to && CanTransition(s, to) then [to] else [] {}
      forall s: State ensures Walk(s, c1) ==
        if s != ValidationPending && CanTransition(s, ValidationPending)
        then [ValidationPending] + Walk(ValidationPending, c2) else Walk(s, c2) {}
      assert Walk(from, c0) ==
        if from != Normalized && CanTransition(from, Normalized)
        then [Normalized] + Walk(Normalized, c1) else Walk(from, c1);
    }
  }

  /** The type a candidate is published as: what the collector determined, else what was proposed. */
  function EffectiveType(c: Candidate): Option<ReleaseType> {
    if c.releaseType.Some? && c.releaseType.value != UnknownType then c.releaseType
    else if c.proposedType.Some? && c.proposedType.value != UnknownType then c.proposedType
    else c.releaseType
  }
}
