/**
 What a validation writes for a human to read: the item it files or rewrites, and the conflict behind it, said
 of the candidate, the source registry and the claims stored before.
 */
module Filed {
  import opened Wrappers
  import opened Text
  import opened Candidates
  import opened Tables
  import Gates
  import Conflicts
  import Ingest
  import Origins
  import Releases
  import opened Verdicts
  import opened Runs

  // ---------------------------------------------------------------------------------------------
  // The gate an item names, and its kind
  // ---------------------------------------------------------------------------------------------

  /** Whether a gate would send the candidate back, or to a human. */
  ghost predicate Refuses(g: Gates.Gate, db: Db, w: World, c: Candidate, src: Source) {
    match g
    case ProductIdentity => !ProductSettled(w, c, src.vendor) && !ProductAmbiguous(w, c, src.vendor)
    case VersionPresent => c.version.raw == "" || Blank(c.version.normalized)
    case SourceEligible => !Collectable(src)
    case DuplicateGate => AlreadyPublished(db, c)
    case DateValid => TooOld(c.releaseDate, w.earliest)
    case EvidenceRetained => c.evidence.None?
    case _ => false
  }

  ghost predicate Asks(g: Gates.Gate, db: Db, w: World, now: int, c: Candidate, src: Source) {
    match g
    case ProductIdentity => ProductAmbiguous(w, c, src.vendor)
    case DateValid => TooNew(c.releaseDate, now, w.futureTolerance) && !TooOld(c.releaseDate, w.earliest)
    case VersionTransition => w.implausible(VersionBefore(db, c), c.version)
    case ConfidenceThreshold =>
      !src.official || src.quality != Conflicts.OfficialManufacturer || c.confidence < Required(w.threshold)
    case MultiSourceAgree => Contradicted(db, w, c, src)
    case _ => false
  }

  lemma GatesMean(db: Db, w: World, now: int, id: nat, g: Gates.Gate)
    requires Ingest.Inspect(db, w, now, id).Success?
    ensures var f, c := Ingest.Inspect(db, w, now, id).value, db.rows[id].c;
      && (Gates.OutcomeOf(g, c, f.context) == Gates.RejectedBy <==> Refuses(g, db, w, c, f.src))
      && (Gates.OutcomeOf(g, c, f.context) == Gates.ReviewRequired <==> Asks(g, db, w, now, c, f.src))
  {
    hide Gates.Judge, Ingest.Assess, Ingest.DuplicateOf, AlreadyPublished, Contradicted, Ingest.ResolveProduct, Collectable, MayCollect,
      ProductSettled, ProductAmbiguous, ProductOf, Blank;
    var f, c := Ingest.Inspect(db, w, now, id).value, db.rows[id].c;
    ResolutionMeans(w, f.src, c);
    CollectableMeans(f.src);
    DuplicateMeans(db, c);
    DisputeMeans(db, w, c, id, f.src, now);
  }

  /** Nothing before a place in the running order objects. */
  ghost predicate QuietBefore(n: nat, db: Db, w: World, now: int, c: Candidate, src: Source) {
    forall g: Gates.Gate | Gates.Place(g) < n :: !Refuses(g, db, w, c, src) && !Asks(g, db, w, now, c, src)
  }

  /** Scanning recorded results for the first of some outcome. */
  lemma {:induction false} FirstObjection(results: seq<Gates.GateResult>, i: nat)
    requires i < |results| && results[i].outcome != Gates.Passed && forall j | 0 <= j < i :: results[j].outcome == Gates.Passed
    ensures Gates.FailingGate(results) == Some(results[i].gate)
  {
    if i > 0 {
      assert forall j | 0 <= j < i - 1 :: results[1..][j] == results[j + 1];
      FirstObjection(results[1..], i - 1);
    }
  }

  lemma {:induction false} NoObjection(results: seq<Gates.GateResult>)
    requires forall j | 0 <= j < |results| :: results[j].outcome == Gates.Passed
    ensures Gates.FailingGate(results) == None
  {
    if |results| > 0 {
      assert forall j | 0 <= j < |results| - 1 :: results[1..][j] == results[j + 1];
      NoObjection(results[1..]);
    }
  }

  lemma {:induction false} FirstQuestion(results: seq<Gates.GateResult>, i: nat)
    requires i < |results| && results[i].outcome == Gates.ReviewRequired
    requires forall j | 0 <= j < i :: results[j].outcome != Gates.ReviewRequired
    ensures Gates.ReviewKindFor(results) == Gates.ReviewKindFor([results[i]])
  {
    if i > 0 {
      assert forall j | 0 <= j < i - 1 :: results[1..][j] == results[j + 1];
      FirstQuestion(results[1..], i - 1);
    }
  }

  /** The kind of item a gate's question becomes. */
  function KindOf(g: Gates.Gate): Gates.ReviewKind {
    if g == Gates.ProductIdentity then Gates.ProductMatchAmbiguous
    else if g == Gates.VersionTransition then Gates.ImplausibleTransition
    else if g == Gates.MultiSourceAgree then Gates.MultiSourceConflict
    else Gates.LowConfidence
  }

  /** The first gate to object, and what the item says of it. */
  lemma ObjectionMeans(db: Db, w: World, now: int, id: nat)
    requires Ingest.Inspect(db, w, now, id).Success?
    ensures var f, c := Ingest.Inspect(db, w, now, id).value, db.rows[id].c; var failing := Gates.FailingGate(f.verdict.results);
      && (failing.None? <==> f.verdict.decision == Gates.Passed)
      && (failing.Some? ==>
            && (Refuses(failing.value, db, w, c, f.src) || Asks(failing.value, db, w, now, c, f.src))
            && QuietBefore(Gates.Place(failing.value), db, w, now, c, f.src))
      && (f.verdict.decision == Gates.ReviewRequired ==>
            && Asks(failing.value, db, w, now, c, f.src)
            && Gates.ReviewKindFor(f.verdict.results) == KindOf(failing.value))
  {
    hide Gates.Judge, Gates.OutcomeOf, Ingest.BuildContext, Ingest.Assess, Ingest.ResolveProduct, Refuses, Asks;
    var f, c := Ingest.Inspect(db, w, now, id).value, db.rows[id].c;
    JudgedResults(c, f.context);
    forall g: Gates.Gate
      ensures Gates.OutcomeOf(g, c, f.context) == Gates.RejectedBy <==> Refuses(g, db, w, c, f.src)
      ensures Gates.OutcomeOf(g, c, f.context) == Gates.ReviewRequired <==> Asks(g, db, w, now, c, f.src)
    {
      GatesMean(db, w, now, id, g);
    }
  }

  /** Of the results of a verdict: the first that did not pass, and its kind when all that follows did not reject. */
  lemma JudgedResults(c: Candidate, ctx: Gates.Context)
    ensures var v := Gates.Judge(c, ctx); var failing := Gates.FailingGate(v.results);
      && (failing.None? <==> v.decision == Gates.Passed)
      && (failing.Some? ==>
            && Gates.OutcomeOf(failing.value, c, ctx) != Gates.Passed
            && forall g: Gates.Gate | Gates.Place(g) < Gates.Place(failing.value) :: Gates.OutcomeOf(g, c, ctx) == Gates.Passed)
      && (v.decision == Gates.ReviewRequired ==>
            && Gates.OutcomeOf(failing.value, c, ctx) == Gates.ReviewRequired
            && Gates.ReviewKindFor(v.results) == KindOf(failing.value))
  {
    hide Gates.OutcomeOf, Gates.RunGates, Gates.FailingGate, Gates.ReviewKindFor, KindOf, Gates.GateAt;
    var v := Gates.Judge(c, ctx);
    Gates.RunGatesResults(c, ctx, 10);
    Gates.RunGatesDecision(c, ctx, 10);
    var n := Scanned(v.results);
    if n.Some? {
      var g := v.results[n.value].gate;
      assert g == Gates.GateAt(n.value + 1) && v.results[n.value].outcome == Gates.OutcomeOf(g, c, ctx);
      forall h: Gates.Gate | Gates.Place(h) < Gates.Place(g) ensures Gates.OutcomeOf(h, c, ctx) == Gates.Passed {
        assert v.results[Gates.Place(h) - 1].outcome == Gates.Passed;
      }
    } else if v.decision != Gates.RejectedBy {
      forall h: Gates.Gate ensures Gates.OutcomeOf(h, c, ctx) == Gates.Passed {
        assert v.results[Gates.Place(h) - 1].outcome == Gates.Passed;
      }
    }
  }

  /** The first result that did not pass is the one the item names, and its kind if it was a question. */
  lemma Scanned(results: seq<Gates.GateResult>) returns (n: Option<nat>)
    ensures n.None? ==> Gates.FailingGate(results).None? && forall j | 0 <= j < |results| :: results[j].outcome == Gates.Passed
    ensures n.Some? ==>
      && n.value < |results| && results[n.value].outcome != Gates.Passed
      && (forall j | 0 <= j < n.value :: results[j].outcome == Gates.Passed)
      && Gates.FailingGate(results) == Some(results[n.value].gate)
      && (results[n.value].outcome == Gates.ReviewRequired ==> Gates.ReviewKindFor(results) == KindOf(results[n.value].gate))
  {
    if i :| 0 <= i < |results| && results[i].outcome != Gates.Passed {
      var m := FirstBad(results, i);
      FirstObjection(results, m);
      if results[m].outcome == Gates.ReviewRequired { FirstQuestion(results, m); }
      n := Some(m);
    } else {
      NoObjection(results);
      n := None;
    }
  }

  lemma {:induction false} FirstBad(results: seq<Gates.GateResult>, i: nat) returns (n: nat)
    requires i < |results| && results[i].outcome != Gates.Passed
    ensures n <= i && results[n].outcome != Gates.Passed && forall j | 0 <= j < n :: results[j].outcome == Gates.Passed
  {
    n := i;
    if j :| 0 <= j < i && results[j].outcome != Gates.Passed { n := FirstBad(results, j); }
  }

  // ---------------------------------------------------------------------------------------------
  // The lists of a dispute
  // ---------------------------------------------------------------------------------------------

  /** A claim that contradicts the candidate gives this version; or comes from this source. */
  ghost predicate Against(db: Db, w: World, c: Candidate, src: Source, version: string) {
    exists o | o in db.observations :: Contradicts(w, c, src, ProductOf(w, c, src.vendor), o) && o.normalized == version
  }

  ghost predicate AgainstBy(db: Db, w: World, c: Candidate, src: Source, source: string) {
    exists o | o in db.observations :: Contradicts(w, c, src, ProductOf(w, c, src.vendor), o) && o.source == source
  }

  /** A claim of another source about the same product and channel, from where claims may be collected. */
  predicate Counts(w: World, c: Candidate, product: string, o: Conflicts.Observation) {
    && o.product == product && o.channel == c.channel && o.source != c.source
    && o.source in w.sources && w.sources[o.source].enabled && Collectable(w.sources[o.source])
  }

  ghost predicate Behind(db: Db, w: World, c: Candidate, src: Source, x: nat) {
    exists o | o in db.observations :: Counts(w, c, ProductOf(w, c, src.vendor), o) && o.candidate == x
  }

  /** Strictly ascending, and holding exactly the candidate's own entry and those of the claims against it. */
  ghost predicate NamesVersions(names: seq<string>, db: Db, w: World, c: Candidate, src: Source) {
    && StrictlySorted(names)
    && forall y :: y in names <==> !Blank(y) && (y == c.version.normalized || Against(db, w, c, src, y))
  }

  ghost predicate NamesSources(names: seq<string>, db: Db, w: World, c: Candidate, src: Source) {
    && StrictlySorted(names)
    && forall y :: y in names <==> !Blank(y) && (y == c.source || AgainstBy(db, w, c, src, y))
  }

  /** The candidate, and those behind every other claim that counts. */
  ghost predicate NamesCandidates(xs: set<nat>, db: Db, w: World, c: Candidate, id: nat, src: Source) {
    forall x :: x in xs <==> x == id || Behind(db, w, c, src, x)
  }

  lemma SourceMembers(subject: Conflicts.Claim, others: seq<Conflicts.Claim>)
    ensures forall y :: y in Conflicts.AssessSourceConflict(subject, others).conflictingSources <==>
      !Blank(y) && exists c | c in others :: Conflicts.Contests(subject, c, false) && c.o.source == y
  {
    var cs := Conflicts.Contesting(subject, others, false);
    SortedSetIsCanonical(Conflicts.Sources(cs));
    forall y | exists c | c in others :: Conflicts.Contests(subject, c, false) && c.o.source == y
      ensures y in Conflicts.Sources(cs)
    {
      var c :| c in others && Conflicts.Contests(subject, c, false) && c.o.source == y;
      assert c in cs;
      var i :| 0 <= i < |cs| && cs[i] == c;
      assert Conflicts.Sources(cs)[i] == y;
    }
    forall y | y in Conflicts.Sources(cs)
      ensures exists c | c in others :: Conflicts.Contests(subject, c, false) && c.o.source == y
    {
      var i :| 0 <= i < |cs| && Conflicts.Sources(cs)[i] == y;
      assert cs[i] in cs;
    }
  }

  lemma Merged(own: string, others: seq<string>)
    ensures StrictlySorted(MergeParticipants(own, others))
    ensures forall y :: y in MergeParticipants(own, others) <==> !Blank(y) && (y == own || y in others)
  {
    SortedSetIsCanonical([own] + others);
  }

  /** Each claim read that contests the subject is a stored one that contradicts the candidate, and conversely. */
  lemma ContestersAre(db: Db, w: World, c: Candidate, id: nat, src: Source, now: int)
    requires c.source in w.sources && src == w.sources[c.source] && ProductOf(w, c, src.vendor) != ""
    ensures var product := ProductOf(w, c, src.vendor);
      var a := Ingest.Assess(db.observations, w, c, id, src, product, now);
      && a.Assessed?
      && (forall k | k in a.others :: k == Joined(k.o, w) && k.o in db.observations && k.o.product == product && k.o.channel == c.channel
            && k.o.source in w.sources
            && (Conflicts.Contests(a.subject, k, false) <==> Contradicts(w, c, src, product, k.o))
            && k.eligible == (w.sources[k.o.source].enabled && Collectable(w.sources[k.o.source])))
      && (forall o | o in db.observations && o.product == product && o.channel == c.channel && o.source in w.sources ::
            Joined(o, w) in a.others && Joined(o, w).o == o)
  {
    hide OwnClaim, ClaimsFor, Conflicts.AssessSourceConflict, Contradicts, Conflicts.Contests, Collectable, ProductOf;
    var product := ProductOf(w, c, src.vendor);
    var a := Ingest.Assess(db.observations, w, c, id, src, product, now);
    forall k | k in a.others
      ensures Conflicts.Contests(a.subject, k, false) <==> Contradicts(w, c, src, product, k.o)
      ensures k.eligible == (w.sources[k.o.source].enabled && Collectable(w.sources[k.o.source]))
    {
      ContestMeans(w, c, src, product, k.o, a.subject);
      CollectableMeans(w.sources[k.o.source]);
    }
  }

  lemma ClaimsAgainst(db: Db, w: World, c: Candidate, id: nat, src: Source, now: int, y: string)
    requires c.source in w.sources && src == w.sources[c.source] && ProductOf(w, c, src.vendor) != ""
    ensures var a := Ingest.Assess(db.observations, w, c, id, src, ProductOf(w, c, src.vendor), now);
      && a.Assessed?
      && ((exists k | k in a.others :: Conflicts.Contests(a.subject, k, false) && k.o.normalized == y) <==> Against(db, w, c, src, y))
      && ((exists k | k in a.others :: Conflicts.Contests(a.subject, k, false) && k.o.source == y) <==> AgainstBy(db, w, c, src, y))
  {
    hide Ingest.Assess, Contradicts, Conflicts.Contests, Collectable, ProductOf, Joined;
    var product := ProductOf(w, c, src.vendor);
    var a := Ingest.Assess(db.observations, w, c, id, src, product, now);
    ContestersAre(db, w, c, id, src, now);
    forall o | o in db.observations && Contradicts(w, c, src, product, o)
      ensures Joined(o, w) in a.others && Joined(o, w).o == o && Conflicts.Contests(a.subject, Joined(o, w), false)
    {
      ContradictorIsRead(w, c, src, product, o);
    }
  }

  lemma CandidatesBehind(db: Db, w: World, c: Candidate, id: nat, src: Source, now: int, x: nat)
    requires c.source in w.sources && src == w.sources[c.source] && ProductOf(w, c, src.vendor) != ""
    ensures var a := Ingest.Assess(db.observations, w, c, id, src, ProductOf(w, c, src.vendor), now);
      a.Assessed? && (x in Ingest.DisputingCandidates(a) <==> x == id || Behind(db, w, c, src, x))
  {
    hide Ingest.Assess, Contradicts, Conflicts.Contests, Collectable, ProductOf, Joined;
    var product := ProductOf(w, c, src.vendor);
    var a := Ingest.Assess(db.observations, w, c, id, src, product, now);
    ContestersAre(db, w, c, id, src, now);
    SubjectIs(db, w, c, id, src, now);
    forall o | o in db.observations && Counts(w, c, product, o)
      ensures Joined(o, w) in a.others && Joined(o, w).o == o && Joined(o, w).eligible {}
    if x in Ingest.DisputingCandidates(a) && x != id {
      var k :| k in a.others && k.o.source != a.subject.o.source && k.eligible && k.o.candidate == x;
      assert Counts(w, c, product, k.o);
    }
  }

  lemma SubjectIs(db: Db, w: World, c: Candidate, id: nat, src: Source, now: int)
    requires ProductOf(w, c, src.vendor) != ""
    ensures var product := ProductOf(w, c, src.vendor);
      var a := Ingest.Assess(db.observations, w, c, id, src, product, now);
      a.Assessed? && Restates(a.subject.o, c, id, product, now) && a.verdict == Conflicts.AssessSourceConflict(a.subject, a.others)
  {
    hide ClaimsFor, OwnClaim, Conflicts.AssessSourceConflict, ProductOf;
  }

  lemma ListsMean(db: Db, w: World, c: Candidate, id: nat, src: Source, now: int)
    requires c.source in w.sources && src == w.sources[c.source] && ProductOf(w, c, src.vendor) != ""
    ensures var a := Ingest.Assess(db.observations, w, c, id, src, ProductOf(w, c, src.vendor), now);
      && a.Assessed?
      && NamesVersions(MergeParticipants(a.subject.o.normalized, a.verdict.conflictingVersions), db, w, c, src)
      && NamesSources(MergeParticipants(a.subject.o.source, a.verdict.conflictingSources), db, w, c, src)
      && NamesCandidates(Ingest.DisputingCandidates(a), db, w, c, id, src)
  {
    hide Ingest.Assess, MergeParticipants, Conflicts.AssessSourceConflict, Conflicts.Contests, ProductOf, Blank, StrictlySorted,
      Against, AgainstBy, Behind, Ingest.DisputingCandidates;
    var a := Ingest.Assess(db.observations, w, c, id, src, ProductOf(w, c, src.vendor), now);
    SubjectIs(db, w, c, id, src, now);
    Conflicts.VerdictMembers(a.subject, a.others);
    SourceMembers(a.subject, a.others);
    Merged(a.subject.o.normalized, a.verdict.conflictingVersions);
    Merged(a.subject.o.source, a.verdict.conflictingSources);
    forall y
      ensures y in a.verdict.conflictingVersions <==> Against(db, w, c, src, y)
      ensures y in a.verdict.conflictingSources <==> !Blank(y) && AgainstBy(db, w, c, src, y)
    {
      ClaimsAgainst(db, w, c, id, src, now, y);
    }
    forall x: nat ensures x in Ingest.DisputingCandidates(a) <==> x == id || Behind(db, w, c, src, x) {
      CandidatesBehind(db, w, c, id, src, now, x);
    }
  }

  // ---------------------------------------------------------------------------------------------
  // The item
  // ---------------------------------------------------------------------------------------------

  /** The gate an item names is the first to object. */
  ghost predicate NamesObjection(gate: Option<Gates.Gate>, passed: bool, db: Db, w: World, now: int, c: Candidate, src: Source) {
    && (gate.None? <==> passed)
    && (gate.Some? ==>
          && (Refuses(gate.value, db, w, c, src) || Asks(gate.value, db, w, now, c, src))
          && QuietBefore(Gates.Place(gate.value), db, w, now, c, src))
  }

  /** What an item tells of the dispute it names, and nothing when it names none. */
  ghost predicate TellsDispute(p: Payload, db: Db, w: World, c: Candidate, id: nat, src: Source) {
    if p.conflict.None? then p.versions == [] && p.sources == [] && p.candidates == {}
    else NamesVersions(p.versions, db, w, c, src) && NamesSources(p.sources, db, w, c, src) && NamesCandidates(p.candidates, db, w, c, id, src)
  }

  /** Where an item is filed and how urgently. */
  ghost predicate Addressed(i: ReviewItem, db: Db, w: World, c: Candidate, src: Source) {
    && i.vendor == src.vendor && i.product == ProductOf(w, c, src.vendor)
    && exists kind :: Origins.TypedAs(c, kind)
         && i.priority == w.score(i.payload.failingGate, src.quality, src.official, c.confidence, kind, Contradicted(db, w, c, src), i.product)
  }

  /** The description a validation would file: about the candidate if a human is asked about it, else about the conflict. */
  ghost predicate Describes(d: ReviewItem, v: Ingest.Validation, db: Db, w: World, now: int, id: nat, c: Candidate, src: Source) {
    && d.payload.conflict == v.conflict
    && NamesObjection(d.payload.failingGate, v.decision == Gates.Passed, db, w, now, c, src)
    && TellsDispute(d.payload, db, w, c, id, src)
    && Addressed(d, db, w, c, src)
    && (v.decision == Gates.ReviewRequired ==>
          d.subject == CandidateSubject(id) && d.payload.failingGate.Some? && d.kind == KindOf(d.payload.failingGate.value))
    && (v.decision != Gates.ReviewRequired ==>
          v.conflict.Some? && d.subject == ConflictSubject(v.conflict.value) && d.kind == Gates.MultiSourceConflict)
    && d.state == Open && d.resolution == "" && d.resolvedBy == "" && d.resolvedAt == 0 && d.createdAt == now
  }

  /** A subject a human should still be looking at: an argued candidate, or the conflict when there is nothing else to decide. */
  ghost predicate StillArgued(s: Subject, filed: Subject, db: Db, w: World, c: Candidate, id: nat, src: Source) {
    match s
    case ConflictSubject(_) => filed.ConflictSubject?
    case CandidateSubject(x) => x == id || (ProductOf(w, c, src.vendor) != "" && Behind(db, w, c, src, x))
  }

  /** What the settled candidate is filed under. */
  lemma SettledIs(w: World, c: Candidate, src: Source)
    ensures var settled := Ingest.SettleProduct(c, Ingest.ResolveProduct(w, src, c));
      settled.product == ProductOf(w, c, src.vendor) && EffectiveType(settled) == EffectiveType(c)
        && settled.confidence == c.confidence
  {
    ResolutionMeans(w, src, c);
  }

  /** A run's payload: the gate that objected, and the lists of the conflict it names. */
  lemma PayloadMeans(db: Db, w: World, now: int, id: nat, outcome: Ingest.ConflictOutcome)
    requires Ingest.Inspect(db, w, now, id).Success? && id < |db.rows|
    requires var f := Ingest.Inspect(db, w, now, id).value;
      f.a == Ingest.Assess(db.observations, w, db.rows[id].c, id, f.src, ProductOf(w, db.rows[id].c, f.src.vendor), now)
        && f.src == w.sources[db.rows[id].c.source] && (outcome.conflict.Some? ==> f.a.Assessed?)
    ensures var f := Ingest.Inspect(db, w, now, id).value; var p := Ingest.ReviewPayload(f.verdict.results, outcome, f.a);
      && p.failingGate == Gates.FailingGate(f.verdict.results) && p.conflict == outcome.conflict
      && TellsDispute(p, db, w, db.rows[id].c, id, f.src)
  {
    hide Ingest.Inspect, Ingest.Assess, Gates.FailingGate, NamesVersions, NamesSources, NamesCandidates, Ingest.DisputingCandidates,
      MergeParticipants, ProductOf;
    var f, c := Ingest.Inspect(db, w, now, id).value, db.rows[id].c;
    if outcome.conflict.Some? {
      AssessedHasProduct(db.observations, w, c, id, f.src, ProductOf(w, c, f.src.vendor), now);
      ListsMean(db, w, c, id, f.src, now);
    }
  }

  lemma AssessedHasProduct(os: seq<Conflicts.Observation>, w: World, c: Candidate, id: nat, src: Source, product: string, now: int)
    ensures Ingest.Assess(os, w, c, id, src, product, now).Assessed? <==> product != ""
  {
  }

  lemma TypeMeans(c: Candidate)
    ensures Origins.TypedAs(c, EffectiveType(c))
  {
  }

  lemma AddressMeans(db: Db, w: World, now: int, id: nat, c: Candidate, outcome: Ingest.ConflictOutcome)
    requires Ingest.Inspect(db, w, now, id).Success? && id < |db.rows|
    requires var f, row := Ingest.Inspect(db, w, now, id).value, db.rows[id].c;
      && f.a == Ingest.Assess(db.observations, w, row, id, f.src, ProductOf(w, row, f.src.vendor), now)
      && f.src == w.sources[row.source]
      && c.product == ProductOf(w, row, f.src.vendor) && EffectiveType(c) == EffectiveType(row) && c.confidence == row.confidence
    requires var f := Ingest.Inspect(db, w, now, id).value; f.verdict.decision == Gates.ReviewRequired || outcome.conflict.Some?
    ensures var f := Ingest.Inspect(db, w, now, id).value;
      Ingest.ReviewPayload(f.verdict.results, outcome, f.a).failingGate == Gates.FailingGate(f.verdict.results) ==>
      Addressed(Ingest.DesiredItem(w, c, id, f.src, f.verdict, f.a, outcome, now), db, w, db.rows[id].c, f.src)
  {
    hide Ingest.Inspect, Ingest.Assess, Gates.FailingGate, ProductOf, Ingest.ReviewPayload, Contradicted, Origins.TypedAs, EffectiveType;
    var f, row := Ingest.Inspect(db, w, now, id).value, db.rows[id].c;
    TypeMeans(row);
    DisputeMeans(db, w, row, id, f.src, now);
    if f.a.Assessed? { StatusIsContradicted(db, w, row, id, f.src, now); }
    var d := Ingest.DesiredItem(w, c, id, f.src, f.verdict, f.a, outcome, now);
    assert d.priority == w.score(Gates.FailingGate(f.verdict.results), f.src.quality, f.src.official, row.confidence,
      EffectiveType(row), Contradicted(db, w, row, f.src), c.product);
  }

  lemma StatusIsContradicted(db: Db, w: World, c: Candidate, id: nat, src: Source, now: int)
    requires c.source in w.sources && src == w.sources[c.source]
    ensures var a := Ingest.Assess(db.observations, w, c, id, src, ProductOf(w, c, src.vendor), now);
      (a.Assessed? && a.verdict.status == Conflicts.Unresolved) <==> Contradicted(db, w, c, src)
  {
    hide ProductOf, Contradicted, ClaimsFor, OwnClaim, Conflicts.AssessSourceConflict;
    var a := Ingest.Assess(db.observations, w, c, id, src, ProductOf(w, c, src.vendor), now);
    DisputeMeans(db, w, c, id, src, now);
    if a.Assessed? { Conflicts.VerdictMembers(a.subject, a.others); }
  }

  lemma DesiredDescribes(db: Db, w: World, now: int, id: nat) returns (d: ReviewItem)
    requires Ingest.Validate(db, w, now, id).Success? && Ingest.Validate(db, w, now, id).value.item.Some?
    ensures id < |db.rows| && db.rows[id].c.source in w.sources && Ingest.Inspect(db, w, now, id).Success? && Ingest.Reconcile(db, w, now, id).Success?
    ensures var v, f, rec := Ingest.Validate(db, w, now, id).value, Ingest.Inspect(db, w, now, id).value, Ingest.Reconcile(db, w, now, id).value;
      && f.context.duplicate == Ingest.DuplicateOf(db.catalog, db.rows[id].c) && f.src == w.sources[db.rows[id].c.source]
      && f.a == Ingest.Assess(db.observations, w, db.rows[id].c, id, f.src, ProductOf(w, db.rows[id].c, f.src.vendor), now)
      && Ingest.ReconcileConflict(db.observations, db.conflicts, f.a, now) == Success(rec) && v.conflict == rec.outcome.conflict
      && Describes(d, v, db, w, now, id, db.rows[id].c, f.src)
      && var judged := Ingest.Judged(db, f, rec, id, now);
         && judged.items == db.items && judged.conflicts == rec.conflicts
         && Ingest.RouteToReview(judged, id, d, db.rows[id].c.source, f.a, rec.outcome).0 == v.db
         && v.item == Some(Ingest.RouteToReview(judged, id, d, db.rows[id].c.source, f.a, rec.outcome).1)
  {
    hide Ingest.Validate, Ingest.Inspect, Ingest.ReconcileConflict, Gates.Judge, Ingest.RouteToReview, Ingest.BuildContext, Ingest.Assess,
      Ingest.ResolveProduct, PathTo, NamesObjection, TellsDispute, Addressed, KindOf, Asks, Gates.FailingGate, Gates.ReviewKindFor,
      Ingest.ReviewPayload, Ingest.Priority, ProductOf, EffectiveType, Ingest.SettleProduct;
    Ingest.ValidationAnatomy(db, w, now, id);
    var f, rec := Ingest.Inspect(db, w, now, id).value, Ingest.Reconcile(db, w, now, id).value;
    var judged := Ingest.Judged(db, f, rec, id, now);
    var c := db.rows[id].c;
    SettledIs(w, c, f.src);
    d := Ingest.DesiredItem(w, judged.rows[id].c, id, f.src, f.verdict, f.a, rec.outcome, now);
    Ingest.OutcomeShape(db.observations, db.conflicts, f.a, now);
    ObjectionMeans(db, w, now, id);
    NamesFirst(db, w, now, id);
    PayloadMeans(db, w, now, id, rec.outcome);
    SettledRow(db.rows[id], f);
    AddressMeans(db, w, now, id, judged.rows[id].c, rec.outcome);
  }

  lemma SettledRow(r: Row, f: Ingest.Findings)
    ensures var c, s := Ingest.JudgedRow(r, f).c, Ingest.SettleProduct(r.c, f.found);
      c.product == s.product && EffectiveType(c) == EffectiveType(s) && c.confidence == s.confidence
  {
    hide PathTo;
  }

  lemma NamesFirst(db: Db, w: World, now: int, id: nat)
    requires Ingest.Inspect(db, w, now, id).Success?
    ensures var f := Ingest.Inspect(db, w, now, id).value;
      NamesObjection(Gates.FailingGate(f.verdict.results), f.verdict.decision == Gates.Passed, db, w, now, db.rows[id].c, f.src)
  {
    hide Ingest.Inspect, Refuses, Asks, QuietBefore, Gates.FailingGate, Gates.ReviewKindFor;
    ObjectionMeans(db, w, now, id);
  }

  /**
   What a validation leaves on the queue: one item, added or rewritten, described by what objected and by the
   dispute, if any. An item found in place keeps its kind and subject while its subject is still argued about,
   and takes the new ones if not; everything else of it that is not the description stays, as do all other items.
   */
  lemma ItemMeans(db: Db, w: World, now: int, id: nat) returns (d: ReviewItem)
    requires Ingest.Validate(db, w, now, id).Success? && Ingest.Validate(db, w, now, id).value.item.Some?
    ensures id < |db.rows| && db.rows[id].c.source in w.sources
    ensures var v, c := Ingest.Validate(db, w, now, id).value, db.rows[id].c; var src, i := w.sources[c.source], v.item.value;
      && Describes(d, v, db, w, now, id, c, src)
      && i <= |db.items|
      && (i == |db.items| ==> v.db.items == db.items + [d])
      && (i < |db.items| ==>
            var was := db.items[i];
            && IsOpen(was)
            && v.db.items == db.items[i := was.(vendor := d.vendor, product := d.product, payload := d.payload, priority := d.priority,
                 kind := if StillArgued(was.subject, d.subject, db, w, c, id, src) then was.kind else d.kind,
                 subject := if StillArgued(was.subject, d.subject, db, w, c, id, src) then was.subject else d.subject)])
  {
    hide Ingest.Validate, Ingest.Inspect, Ingest.ReconcileConflict, Ingest.Judged, Describes, StillArgued, Ingest.Assess, ProductOf;
    d := DesiredDescribes(db, w, now, id);
    var f, rec := Ingest.Inspect(db, w, now, id).value, Ingest.Reconcile(db, w, now, id).value;
    var judged := Ingest.Judged(db, f, rec, id, now);
    DescribedSubject(d, Ingest.Validate(db, w, now, id).value, db, w, now, id, db.rows[id].c, f.src);
    RoutedItemIs(judged, id, d, db.rows[id].c.source, f.a, rec.outcome);
    forall s: Subject ensures Ingest.StillInDispute(s, d.subject, id, db.rows[id].c.source, f.a) <==> StillArgued(s, d.subject, db, w, db.rows[id].c, id, f.src) {
      ArguedMeans(db, w, now, id, db.rows[id].c, f.src, s, d.subject);
    }
  }

  lemma DescribedSubject(d: ReviewItem, v: Ingest.Validation, db: Db, w: World, now: int, id: nat, c: Candidate, src: Source)
    requires Describes(d, v, db, w, now, id, c, src)
    ensures IsOpen(d) && (d.subject == CandidateSubject(id) || d.subject.ConflictSubject?)
  {
  }

  lemma ArguedMeans(db: Db, w: World, now: int, id: nat, c: Candidate, src: Source, s: Subject, filed: Subject)
    requires c.source in w.sources && src == w.sources[c.source]
    ensures var a := Ingest.Assess(db.observations, w, c, id, src, ProductOf(w, c, src.vendor), now);
      Ingest.StillInDispute(s, filed, id, c.source, a) <==> StillArgued(s, filed, db, w, c, id, src)
  {
    hide Ingest.Assess, ProductOf, Behind;
    var a := Ingest.Assess(db.observations, w, c, id, src, ProductOf(w, c, src.vendor), now);
    AssessedHasProduct(db.observations, w, c, id, src, ProductOf(w, c, src.vendor), now);
    if ProductOf(w, c, src.vendor) != "" && s.CandidateSubject? {
      SubjectIs(db, w, c, id, src, now);
      CandidatesBehind(db, w, c, id, src, now, s.candidate);
      ContestersAre(db, w, c, id, src, now);
    }
  }

  /** Routing, said of the item it settles on. */
  lemma RoutedItemIs(db: Db, id: nat, d: ReviewItem, source: string, a: Ingest.Assessment, outcome: Ingest.ConflictOutcome)
    requires IsOpen(d) && (d.subject == CandidateSubject(id) || d.subject.ConflictSubject?)
    ensures var (next, i, _) := Ingest.RouteToReview(db, id, d, source, a, outcome);
      && i <= |db.items|
      && (i == |db.items| ==> next.items == db.items + [d])
      && (i < |db.items| ==>
            var was := db.items[i]; var argued := Ingest.StillInDispute(was.subject, d.subject, id, source, a);
            && IsOpen(was)
            && next.items == db.items[i := was.(vendor := d.vendor, product := d.product, payload := d.payload, priority := d.priority,
                 kind := if argued then was.kind else d.kind, subject := if argued then was.subject else d.subject)])
  {
  }

  // ---------------------------------------------------------------------------------------------
  // The candidate's row
  // ---------------------------------------------------------------------------------------------

  /** Where a verdict leads a candidate: to its state, except from where there is no way. */
  function LedTo(from: State, decision: Gates.Outcome): State {
    var to := if decision == Gates.Passed then Validated else if decision == Gates.ReviewRequired then HumanReviewRequired else Rejected;
    if from == Published || from == Superseded || (from == Discovered && to != Rejected) || (from == Rejected && to == Validated) then from else to
  }

  /** Every gate up to the first that refuses, in order, with what it says. */
  ghost predicate RecordsGates(results: seq<Gates.GateResult>, db: Db, w: World, now: int, c: Candidate, src: Source) {
    && 0 < |results| <= 10
    && (forall i | 0 <= i < |results| ::
          && results[i].gate == Gates.GATE_ORDER[i] && results[i].order == i + 1
          && (results[i].outcome == Gates.RejectedBy <==> Refuses(Gates.GATE_ORDER[i], db, w, c, src))
          && (results[i].outcome == Gates.ReviewRequired <==> Asks(Gates.GATE_ORDER[i], db, w, now, c, src)))
    && (forall i | 0 <= i < |results| - 1 :: results[i].outcome != Gates.RejectedBy)
    && (|results| < 10 ==> results[|results| - 1].outcome == Gates.RejectedBy)
  }

  lemma GatesRecorded(db: Db, w: World, now: int, id: nat)
    requires Ingest.Inspect(db, w, now, id).Success?
    ensures var f := Ingest.Inspect(db, w, now, id).value; RecordsGates(f.verdict.results, db, w, now, db.rows[id].c, f.src)
  {
    hide Gates.OutcomeOf, Ingest.BuildContext, Ingest.Assess, Ingest.ResolveProduct, Refuses, Asks, Gates.RunGates;
    var f, c := Ingest.Inspect(db, w, now, id).value, db.rows[id].c;
    Gates.RunGatesResults(c, f.context, 10);
    SomethingRuns(c, f.context);
    forall i | 0 <= i < |f.verdict.results|
      ensures f.verdict.results[i].gate == Gates.GATE_ORDER[i] && f.verdict.results[i].order == i + 1
      ensures f.verdict.results[i].outcome == Gates.RejectedBy <==> Refuses(Gates.GATE_ORDER[i], db, w, c, f.src)
      ensures f.verdict.results[i].outcome == Gates.ReviewRequired <==> Asks(Gates.GATE_ORDER[i], db, w, now, c, f.src)
    {
      assert f.verdict.results[i] == Gates.GateResult(Gates.GateAt(i + 1), i + 1, Gates.OutcomeOf(Gates.GateAt(i + 1), c, f.context));
      GatesMean(db, w, now, id, Gates.GATE_ORDER[i]);
    }
  }

  lemma SomethingRuns(c: Candidate, ctx: Gates.Context)
    ensures |Gates.Judge(c, ctx).results| > 0
  {
    hide Gates.OutcomeOf;
    Gates.RunGatesResults(c, ctx, 10);
  }

  /** What a validation leaves of its candidate: the product settled, the gates recorded, and the state the verdict leads to. */
  lemma RowMeans(db: Db, w: World, now: int, id: nat)
    requires Ingest.Validate(db, w, now, id).Success?
    ensures id < |db.rows| && db.rows[id].c.source in w.sources && id < |Ingest.Validate(db, w, now, id).value.db.rows|
    ensures var v, c := Ingest.Validate(db, w, now, id).value, db.rows[id].c; var src, row := w.sources[c.source], v.db.rows[id];
      && row.c == c.(state := LedTo(c.state, v.decision), product := ProductOf(w, c, src.vendor),
           matched := if ProductOf(w, c, src.vendor) != c.product then Unique else c.matched)
      && RecordsGates(row.verdict, db, w, now, c, src)
  {
    hide Ingest.Validate, Ingest.Inspect, Ingest.ReconcileConflict, Gates.Judge, Ingest.RouteToReview, Ingest.BuildContext, Ingest.Assess,
      Ingest.ResolveProduct, PathTo, Ingest.DesiredItem, RecordsGates, ProductOf;
    Ingest.ValidationAnatomy(db, w, now, id);
    GatesRecorded(db, w, now, id);
    var f, rec, c := Ingest.Inspect(db, w, now, id).value, Ingest.Reconcile(db, w, now, id).value, db.rows[id].c;
    var judged := Ingest.Judged(db, f, rec, id, now);
    PathToArrivesOrStays(c.state, Ingest.StateFor(f.verdict.decision));
    SettlingMeans(w, c, f.src);
    if Ingest.NeedsItem(f, rec) { RoutingSparesOwn(db, w, now, id); }
  }

  lemma SettlingMeans(w: World, c: Candidate, src: Source)
    ensures Ingest.SettleProduct(c, Ingest.ResolveProduct(w, src, c)) == c.(product := ProductOf(w, c, src.vendor),
      matched := if ProductOf(w, c, src.vendor) != c.product then Unique else c.matched)
  {
  }

  /** Whoever routing releases, it is never the candidate being validated. */
  lemma RoutingSparesOwn(db: Db, w: World, now: int, id: nat)
    requires Ingest.Validate(db, w, now, id).Success? && Ingest.Validate(db, w, now, id).value.item.Some?
    ensures Ingest.Inspect(db, w, now, id).Success? && Ingest.Reconcile(db, w, now, id).Success?
    ensures var f, rec, next := Ingest.Inspect(db, w, now, id).value, Ingest.Reconcile(db, w, now, id).value, Ingest.Validate(db, w, now, id).value.db;
      && f.context.duplicate == Ingest.DuplicateOf(db.catalog, db.rows[id].c)
      && id < |next.rows| && next.rows[id] == Ingest.Judged(db, f, rec, id, now).rows[id]
  {
    hide Ingest.Validate, Ingest.Inspect, Ingest.ReconcileConflict, Gates.Judge, Ingest.BuildContext, Ingest.Assess,
      Ingest.ResolveProduct, PathTo, Ingest.DesiredItem, Ingest.JudgedRow, Ingest.RouteToReview;
    Ingest.ValidationAnatomy(db, w, now, id);
    var f, rec := Ingest.Inspect(db, w, now, id).value, Ingest.Reconcile(db, w, now, id).value;
    var judged := Ingest.Judged(db, f, rec, id, now);
    RoutedRow(judged, id, Ingest.DesiredItem(w, judged.rows[id].c, id, f.src, f.verdict, f.a, rec.outcome, now),
      db.rows[id].c.source, f.a, rec.outcome);
  }

  lemma RoutedRow(db: Db, id: nat, d: ReviewItem, source: string, a: Ingest.Assessment, outcome: Ingest.ConflictOutcome)
    requires id < |db.rows|
    ensures var next := Ingest.RouteToReview(db, id, d, source, a, outcome).0; id < |next.rows| && next.rows[id] == db.rows[id]
  {
    hide Ingest.OpenItemFor;
  }

  /** A validation refreshes when a published duplicate was last verified, and touches the catalogue nowhere else. */
  lemma DuplicateIsVerified(db: Db, w: World, now: int, id: nat)
    requires Ingest.Validate(db, w, now, id).Success?
    ensures id < |db.rows|
    ensures var c, cat, next := db.rows[id].c, db.catalog, Ingest.Validate(db, w, now, id).value.db.catalog;
      && (!AlreadyPublished(db, c) ==> next == cat)
      && (AlreadyPublished(db, c) ==> exists i | 0 <= i < |cat.mappings| ::
            && cat.mappings[i].product == c.product && cat.mappings[i].channel == c.channel
            && var r := cat.mappings[i].release;
               && cat.releases[r].version.normalized == c.version.normalized
               && next == cat.(releases := cat.releases[r := cat.releases[r].(lastVerifiedAt := now)]))
  {
    hide Ingest.Validate, Ingest.Inspect, Ingest.ReconcileConflict, Gates.Judge, Ingest.RouteToReview, Ingest.BuildContext, Ingest.Assess,
      Ingest.ResolveProduct, PathTo, Ingest.DesiredItem, Ingest.JudgedRow, AlreadyPublished;
    Ingest.ValidationAnatomy(db, w, now, id);
    var f, rec, c := Ingest.Inspect(db, w, now, id).value, Ingest.Reconcile(db, w, now, id).value, db.rows[id].c;
    var judged := Ingest.Judged(db, f, rec, id, now);
    DuplicateMeans(db, c);
    if f.context.duplicate.Some? { DuplicateIsMapped(db, c); }
    if Ingest.NeedsItem(f, rec) {
      Ingest.RoutingOnlyMovesQueue(judged, id, Ingest.DesiredItem(w, judged.rows[id].c, id, f.src, f.verdict, f.a, rec.outcome, now),
        c.source, f.a, rec.outcome);
    }
  }

  lemma DuplicateIsMapped(db: Db, c: Candidate)
    requires Ingest.DuplicateOf(db.catalog, c).Some?
    ensures var cat := db.catalog; exists i | 0 <= i < |cat.mappings| ::
      && cat.mappings[i].product == c.product && cat.mappings[i].channel == c.channel
      && cat.mappings[i].release == Ingest.DuplicateOf(cat, c).value
      && cat.releases[cat.mappings[i].release].version.normalized == c.version.normalized
  {
    var i := MappedAt(db.catalog, c.product, c.version.normalized, c.channel, |db.catalog.mappings|);
  }

  lemma {:induction false} MappedAt(cat: Releases.Tables, product: string, normalized: string, channel: string, n: nat) returns (i: nat)
    requires n <= |cat.mappings| && Releases.DuplicateAmong(cat, product, normalized, channel, n).Some?
    ensures i < n && Releases.IsDuplicate(cat, cat.mappings[i], product, normalized, channel)
    ensures cat.mappings[i].release == Releases.DuplicateAmong(cat, product, normalized, channel, n).value
  {
    if Releases.DuplicateAmong(cat, product, normalized, channel, n - 1).Some? {
      i := MappedAt(cat, product, normalized, channel, n - 1);
    } else {
      i := n - 1;
    }
  }
}
