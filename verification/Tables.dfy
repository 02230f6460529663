/**
 The rows the ingestion use cases read and write, and the ports over them (internal/application/ports.go).
 Tables only ever grow, so a row's identifier is its position: a fresh identifier is the length.
 */
module Tables {
  import opened Wrappers
  import opened Text
  import opened PartialDates
  import opened Candidates
  import Gates
  import Conflicts
  import Releases

  // ---------------------------------------------------------------------------------------------
  // The source registry and everything else the use cases are told rather than decide
  // ---------------------------------------------------------------------------------------------

  datatype Health =
    | HealthDiscovered | PendingReview | Active | Degraded | RateLimited
    | AuthenticationRequired | Broken | Relocated | Disabled | Retired

  datatype Robots = Allowed | Disallowed | Undetermined | NotApplicable

  datatype Terms = Pending | Approved | Restricted | Prohibited

  datatype Source = Source(
    vendor: string, enabled: bool, official: bool, quality: Conflicts.QualityClass,
    health: Health, robots: Robots, terms: Terms)

  predicate CompliancePermitsCollection(s: Source) {
    s.robots in {Allowed, NotApplicable} && s.terms in {Approved, Restricted}
  }

  /** Eligibility of the source being validated. */
  predicate MayCollect(s: Source) {
    CompliancePermitsCollection(s) && s.health in {Active, Degraded}
  }

  /** Eligibility as the observation query joins it, which also demands an enabled source. */
  predicate CountsAsEvidence(s: Source) {
    s.enabled && MayCollect(s)
  }

  /**
   The registry and the injected policies at one moment. resolve is ResolveByAlias, implausible is
   AssessTransition asking for review, score is ScoreReview.
   */
  datatype World = World(
    sources: map<string, Source>,
    resolve: (string, string) -> seq<string>,
    implausible: (Option<Version>, Version) -> bool,
    score: (Option<Gates.Gate>, Conflicts.QualityClass, bool, real, Option<ReleaseType>, bool, string) -> int,
    threshold: real, futureTolerance: int, earliest: int)

  // ---------------------------------------------------------------------------------------------
  // Rows
  // ---------------------------------------------------------------------------------------------

  /** A candidate row, its recorded gate results, and every state UpdateState has written to it. */
  datatype Row = Row(c: Candidate, verdict: seq<Gates.GateResult>, trail: seq<State>)

  datatype Subject = CandidateSubject(candidate: nat) | ConflictSubject(conflict: nat)

  datatype Payload = Payload(
    failingGate: Option<Gates.Gate>, conflict: Option<nat>,
    versions: seq<string>, sources: seq<string>, candidates: set<nat>)

  datatype ItemState = Open | InProgress | Resolved | Dismissed

  datatype ReviewItem = ReviewItem(
    kind: Gates.ReviewKind, subject: Subject, vendor: string, product: string, payload: Payload,
    priority: int, state: ItemState, resolution: string, resolvedBy: string, resolvedAt: int, createdAt: int)

  predicate IsOpen(i: ReviewItem) { i.state in {Open, InProgress} }

  datatype AuditRow = AuditRow(
    item: nat, actor: string, authenticated: bool, accepted: bool, reason: string,
    before: Option<State>, after: Option<State>, release: Option<nat>, at: int)

  /** jobs holds the candidates a publication job was ever enqueued for (its idempotency key). */
  datatype Db = Db(
    rows: seq<Row>, catalog: Releases.Tables, observations: seq<Conflicts.Observation>,
    conflicts: seq<Conflicts.SourceConflict>, items: seq<ReviewItem>, jobs: set<nat>, audit: seq<AuditRow>)

  const EMPTY := Db([], Releases.Catalog([], []), [], [], [], {}, [])

  datatype Error = NotFound | Invalid | InvalidTransition | NotPermitted | AlreadyDecided

  datatype Event =
    | CandidateValidated(candidate: nat)
    | HumanReviewRequested(candidate: nat)
    | CandidateRejected(candidate: nat)
    | SourceConflictDetected(conflict: nat)
    | SourceConflictResolved(product: string, channel: string, outranked: bool)

  // ---------------------------------------------------------------------------------------------
  // Candidate and release ports
  // ---------------------------------------------------------------------------------------------

  function Walked(r: Row, steps: seq<State>): Row {
    r.(c := r.c.(state := EndOf(r.c.state, steps)), trail := r.trail + steps)
  }

  /** UpdateState, once for each step. */
  function UpdateStates(db: Db, id: nat, steps: seq<State>): Db
    requires id < |db.rows|
  {
    db.(rows := db.rows[id := Walked(db.rows[id], steps)])
  }

  // ---------------------------------------------------------------------------------------------
  // Observation and conflict ports
  // ---------------------------------------------------------------------------------------------

  predicate SameKey(o: Conflicts.Observation, p: Conflicts.Observation) {
    o.source == p.source && o.product == p.product && o.channel == p.channel
  }

  /** The stored row with o's source, product and channel. */
  function FindObservation(os: seq<Conflicts.Observation>, o: Conflicts.Observation): (r: Option<nat>)
    ensures r.Some? ==> r.value < |os| && SameKey(os[r.value], o)
    ensures r.None? ==> forall i | 0 <= i < |os| :: !SameKey(os[i], o)
  {
    if |os| == 0 then None
    else
      var n := |os| - 1;
      var before := FindObservation(os[..n], o);
      if before.Some? then before else if SameKey(os[n], o) then Some(n) else None
  }

  /** RecordObservation: replace the source's row, keeping when the claim was first made, or add one. */
  function RecordObservation(os: seq<Conflicts.Observation>, o: Conflicts.Observation): seq<Conflicts.Observation> {
    var i := FindObservation(os, o);
    if i.Some? then os[i.value := o.(firstObservedAt := os[i.value].firstObservedAt)] else os + [o]
  }

  /** ObservationsForProduct: the matching rows joined with their sources. */
  function ClaimsFor(os: seq<Conflicts.Observation>, w: World, product: string, channel: string): (r: seq<Conflicts.Claim>)
    ensures forall c :: c in r <==>
      (c.o in os && c.o.product == product && c.o.channel == channel && c.o.source in w.sources && c == Joined(c.o, w))
  {
    if |os| == 0 then []
    else
      var n := |os| - 1;
      assert os == os[..n] + [os[n]];
      var before := ClaimsFor(os[..n], w, product, channel);
      if os[n].product == product && os[n].channel == channel && os[n].source in w.sources
      then before + [Joined(os[n], w)] else before
  }

  function Joined(o: Conflicts.Observation, w: World): Conflicts.Claim {
    if o.source in w.sources
    then Conflicts.Claim(o, w.sources[o.source].quality, CountsAsEvidence(w.sources[o.source]))
    else Conflicts.Claim(o, Conflicts.UnknownThirdParty, false)
  }

  /** This source's own row among the claims read. */
  function OwnClaim(cs: seq<Conflicts.Claim>, source: string): (r: Option<Conflicts.Observation>)
    ensures r.Some? ==> r.value.source == source && exists c | c in cs :: c.o == r.value
    ensures r.None? ==> forall c | c in cs :: c.o.source != source
  {
    if |cs| == 0 then None
    else
      assert cs == [cs[0]] + cs[1..];
      if cs[0].o.source == source then Some(cs[0].o) else OwnClaim(cs[1..], source)
  }

  /** OpenConflictFor: the first open conflict of a product and channel. */
  function OpenConflictFor(ks: seq<Conflicts.SourceConflict>, product: string, channel: string): (r: Option<nat>)
    ensures r.Some? ==> r.value < |ks| && IsOpenFor(ks[r.value], product, channel)
    ensures r.None? ==> forall i | 0 <= i < |ks| :: !IsOpenFor(ks[i], product, channel)
  {
    if |ks| == 0 then None
    else
      var n := |ks| - 1;
      var before := OpenConflictFor(ks[..n], product, channel);
      if before.Some? then before else if IsOpenFor(ks[n], product, channel) then Some(n) else None
  }

  predicate IsOpenFor(k: Conflicts.SourceConflict, product: string, channel: string) {
    k.open && k.product == product && k.channel == channel
  }

  /** UpsertOpenConflict: the table after, the conflict's identifier, and whether it was opened. */
  function UpsertOpenConflict(ks: seq<Conflicts.SourceConflict>, k: Conflicts.SourceConflict)
    : (seq<Conflicts.SourceConflict>, nat, bool)
  {
    var found := OpenConflictFor(ks, k.product, k.channel);
    if found.Some? then
      var stored := ks[found.value];
      (ks[found.value := stored.(versions := k.versions, sources := k.sources, rank := k.rank, lastSeenAt := k.lastSeenAt)],
       found.value, false)
    else (ks + [k], |ks|, true)
  }

  function Closed(k: Conflicts.SourceConflict, actor: string, resolution: string, now: int): Conflicts.SourceConflict {
    k.(open := false, resolvedAt := now, resolvedBy := actor, resolution := resolution)
  }

  // ---------------------------------------------------------------------------------------------
  // Review port
  // ---------------------------------------------------------------------------------------------

  /** FindOpenBySubject: the oldest open item naming a subject. */
  function FindOpenBySubject(items: seq<ReviewItem>, s: Subject): (r: Option<nat>)
    ensures r.Some? ==> r.value < |items| && IsOpen(items[r.value]) && items[r.value].subject == s
    ensures r.None? ==> forall i | 0 <= i < |items| :: !(IsOpen(items[i]) && items[i].subject == s)
  {
    if |items| == 0 then None
    else
      var n := |items| - 1;
      var before := FindOpenBySubject(items[..n], s);
      if before.Some? then before
      else if IsOpen(items[n]) && items[n].subject == s then Some(n) else None
  }
}
