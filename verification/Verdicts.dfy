/**
 What a validation decides, said of the candidate, its source and the tables as they were: no gate, no
 context and no order of running them.
 */
module Verdicts {
  import opened Wrappers
  import opened Text
  import opened Candidates
  import opened Tables
  import PartialDates
  import Gates
  import Conflicts
  import Releases
  import Ingest
  import Observations

  const NANOSECONDS_A_DAY: int := 24 * 60 * 60 * 1_000_000_000

  predicate Dated(d: PartialDates.PartialDate) { d.precision != PartialDates.Unknown }

  predicate TooOld(d: PartialDates.PartialDate, earliest: int) {
    Dated(d) && earliest != 0 && d.anchor * NANOSECONDS_A_DAY < earliest
  }

  predicate TooNew(d: PartialDates.PartialDate, now: int, tolerance: int) {
    Dated(d) && d.anchor * NANOSECONDS_A_DAY > now + tolerance
  }

  /** The threshold in force: 85 in a hundred when none is set. */
  function Required(threshold: real): real { if threshold > 0.0 then threshold else 85.0 / 100.0 }

  // ---------------------------------------------------------------------------------------------
  // The ten gates
  // ---------------------------------------------------------------------------------------------

  /** What no human is asked about. */
  predicate Refused(c: Candidate, ctx: Gates.Context) {
    || (!ctx.productResolved && !ctx.productAmbiguous)
    || c.version.raw == "" || Blank(c.version.normalized)
    || !ctx.sourceEligible
    || ctx.duplicate.Some?
    || TooOld(c.releaseDate, ctx.earliest)
    || !ctx.evidencePresent || c.evidence.None?
  }

  /** What a human is asked about when nothing is refused. */
  predicate Doubtful(c: Candidate, ctx: Gates.Context) {
    || ctx.productAmbiguous
    || (TooNew(c.releaseDate, ctx.now, ctx.futureTolerance) && !TooOld(c.releaseDate, ctx.earliest))
    || ctx.implausible
    || !ctx.sourceOfficial || c.confidence < Required(ctx.threshold)
    || !ctx.applicabilityKnown
    || ctx.conflicting != []
  }

  lemma GateMeanings(c: Candidate, ctx: Gates.Context, g: Gates.Gate)
    ensures Gates.OutcomeOf(g, c, ctx) == Gates.RejectedBy ==> Refused(c, ctx)
    ensures Gates.OutcomeOf(g, c, ctx) == Gates.ReviewRequired ==> Doubtful(c, ctx)
  {
  }

  lemma RefusedByAGate(c: Candidate, ctx: Gates.Context) returns (g: Gates.Gate)
    requires Refused(c, ctx)
    ensures Gates.OutcomeOf(g, c, ctx) == Gates.RejectedBy
  {
    g := if !ctx.productResolved && !ctx.productAmbiguous then Gates.ProductIdentity
         else if c.version.raw == "" || Blank(c.version.normalized) then Gates.VersionPresent
         else if !ctx.sourceEligible then Gates.SourceEligible
         else if ctx.duplicate.Some? then Gates.DuplicateGate
         else if TooOld(c.releaseDate, ctx.earliest) then Gates.DateValid
         else Gates.EvidenceRetained;
  }

  lemma DoubtedByAGate(c: Candidate, ctx: Gates.Context) returns (g: Gates.Gate)
    requires Doubtful(c, ctx)
    ensures Gates.OutcomeOf(g, c, ctx) == Gates.ReviewRequired
  {
    g := if ctx.productAmbiguous then Gates.ProductIdentity
         else if TooNew(c.releaseDate, ctx.now, ctx.futureTolerance) && !TooOld(c.releaseDate, ctx.earliest) then Gates.DateValid
         else if ctx.implausible then Gates.VersionTransition
         else if !ctx.sourceOfficial || c.confidence < Required(ctx.threshold) then Gates.ConfidenceThreshold
         else if !ctx.applicabilityKnown then Gates.Applicability
         else Gates.MultiSourceAgree;
  }

  /** The verdict on a candidate and what is known about it: refused, doubtful, or neither. */
  lemma JudgedBy(c: Candidate, ctx: Gates.Context)
    ensures Gates.Judge(c, ctx).decision ==
      if Refused(c, ctx) then Gates.RejectedBy else if Doubtful(c, ctx) then Gates.ReviewRequired else Gates.Passed
  {
    hide Refused, Doubtful, Gates.Judge, Gates.OutcomeOf;
    Gates.VerdictMeaning(c, ctx);
    forall g: Gates.Gate
      ensures Gates.OutcomeOf(g, c, ctx) == Gates.RejectedBy ==> Refused(c, ctx)
      ensures Gates.OutcomeOf(g, c, ctx) == Gates.ReviewRequired ==> Doubtful(c, ctx)
    {
      GateMeanings(c, ctx, g);
    }
    if Refused(c, ctx) { var g := RefusedByAGate(c, ctx); }
    if Doubtful(c, ctx) { var g := DoubtedByAGate(c, ctx); }
  }

  // ---------------------------------------------------------------------------------------------
  // A validation
  // ---------------------------------------------------------------------------------------------

  /** The product a candidate is taken to be about, or none: its own, or the one its hint names alone. */
  predicate ProductSettled(w: World, c: Candidate, vendor: string) {
    || (c.product != "" && c.matched in {Unique, Unmatched})
    || (c.product == "" && c.matched == Unmatched && |w.resolve(vendor, c.hint)| == 1)
  }

  predicate ProductAmbiguous(w: World, c: Candidate, vendor: string) {
    || c.matched == Ambiguous
    || (c.product == "" && c.matched == Unmatched && |w.resolve(vendor, c.hint)| > 1)
  }

  function ProductOf(w: World, c: Candidate, vendor: string): string {
    if c.product == "" && c.matched == Unmatched && |w.resolve(vendor, c.hint)| == 1 then w.resolve(vendor, c.hint)[0] else c.product
  }

  predicate Collectable(s: Source) {
    && (s.robots == Allowed || s.robots == NotApplicable)
    && (s.terms == Approved || s.terms == Restricted)
    && (s.health == Active || s.health == Degraded)
  }

  /** The quality classes from the least to the most authoritative. */
  function Rung(q: Conflicts.QualityClass): nat {
    match q
    case UnknownThirdParty => 0
    case TrustedCommunity => 1
    case VendorRepository => 2
    case AuthorizedPortal => 3
    case OfficialManufacturer => 4
  }

  /** A stored claim by another source that may be collected from, of another version of the same product and channel. */
  predicate Disputes(w: World, c: Candidate, product: string, o: Conflicts.Observation) {
    && o.product == product && o.channel == c.channel
    && o.source != "" && o.source != c.source
    && o.source in w.sources && w.sources[o.source].enabled && Collectable(w.sources[o.source])
    && !Blank(o.normalized) && o.normalized != c.version.normalized
  }

  /** A disputing claim by a source that is no less authoritative. */
  predicate Contradicts(w: World, c: Candidate, src: Source, product: string, o: Conflicts.Observation) {
    Disputes(w, c, product, o) && o.source in w.sources && Rung(w.sources[o.source].quality) >= Rung(src.quality)
  }

  ghost predicate Contradicted(db: Db, w: World, c: Candidate, src: Source) {
    var product := ProductOf(w, c, src.vendor);
    product != "" && exists o | o in db.observations :: Contradicts(w, c, src, product, o)
  }

  /** The same product, channel and version is already published; asked only about a product the candidate came with. */
  ghost predicate AlreadyPublished(db: Db, c: Candidate) {
    c.product != "" && exists i | 0 <= i < |db.catalog.mappings| ::
      && db.catalog.mappings[i].product == c.product && db.catalog.mappings[i].channel == c.channel
      && db.catalog.releases[db.catalog.mappings[i].release].version.normalized == c.version.normalized
  }

  /** The version the candidate would follow: the latest published one, asked only about a product it came with. */
  function VersionBefore(db: Db, c: Candidate): Option<Version> {
    if c.product == "" then None
    else
      var latest := Releases.LatestForProduct(db.catalog, c.product, c.channel);
      if latest.Some? then Some(db.catalog.releases[latest.value].version) else None
  }

  ghost predicate Unacceptable(db: Db, w: World, c: Candidate, src: Source) {
    || (!ProductSettled(w, c, src.vendor) && !ProductAmbiguous(w, c, src.vendor))
    || c.version.raw == "" || Blank(c.version.normalized)
    || !Collectable(src)
    || AlreadyPublished(db, c)
    || TooOld(c.releaseDate, w.earliest)
    || c.evidence.None?
  }

  ghost predicate Questionable(db: Db, w: World, now: int, c: Candidate, src: Source) {
    || ProductAmbiguous(w, c, src.vendor)
    || TooNew(c.releaseDate, now, w.futureTolerance)
    || w.implausible(VersionBefore(db, c), c.version)
    || !src.official || src.quality != Conflicts.OfficialManufacturer || c.confidence < Required(w.threshold)
    || Contradicted(db, w, c, src)
  }

  lemma ResolutionMeans(w: World, src: Source, c: Candidate)
    ensures var m := Ingest.ResolveProduct(w, src, c);
      && m.ambiguous == ProductAmbiguous(w, c, src.vendor)
      && (m.resolved <==> ProductSettled(w, c, src.vendor) && !m.ambiguous)
      && (m.resolved || m.ambiguous <==> ProductSettled(w, c, src.vendor) || ProductAmbiguous(w, c, src.vendor))
      && (if c.product == "" then m.product else c.product) == ProductOf(w, c, src.vendor)
  {
  }

  lemma CollectableMeans(s: Source)
    ensures MayCollect(s) == Collectable(s)
    ensures CountsAsEvidence(s) == (s.enabled && Collectable(s))
  {
  }

  lemma RungMeans(q: Conflicts.QualityClass, r: Conflicts.QualityClass)
    ensures Conflicts.Authority(q) < Conflicts.Authority(r) <==> Rung(q) < Rung(r)
  {
  }

  lemma DuplicateMeans(db: Db, c: Candidate)
    ensures Ingest.DuplicateOf(db.catalog, c).Some? <==> AlreadyPublished(db, c)
  {
    hide Releases.DuplicateAmong;
    if c.product != "" {
      var cat := db.catalog;
      forall i | 0 <= i < |cat.mappings|
        ensures Releases.IsDuplicate(cat, cat.mappings[i], c.product, c.version.normalized, c.channel) <==>
          (&& cat.mappings[i].product == c.product && cat.mappings[i].channel == c.channel
           && cat.releases[cat.mappings[i].release].version.normalized == c.version.normalized) {}
    }
  }

  /** Among the claims read, who contests the candidate from no lower a rank. */
  lemma ContestMeans(w: World, c: Candidate, src: Source, product: string, o: Conflicts.Observation, subject: Conflicts.Claim)
    requires o.source in w.sources && o.product == product && o.channel == c.channel
    requires subject.o.source == c.source && subject.o.normalized == c.version.normalized && subject.quality == src.quality
    ensures Conflicts.Disagrees(subject, Joined(o, w)) <==> Disputes(w, c, product, o)
    ensures Conflicts.Contests(subject, Joined(o, w), false) <==> Contradicts(w, c, src, product, o)
  {
    CollectableMeans(w.sources[o.source]);
    RungMeans(w.sources[o.source].quality, src.quality);
  }

  lemma DisputeMeans(db: Db, w: World, c: Candidate, id: nat, src: Source, now: int)
    requires c.source in w.sources && src == w.sources[c.source]
    ensures var a := Ingest.Assess(db.observations, w, c, id, src, ProductOf(w, c, src.vendor), now);
      (a.Assessed? && a.verdict.conflictingVersions != []) <==> Contradicted(db, w, c, src)
  {
    hide OwnClaim, ClaimsFor, Conflicts.AssessSourceConflict, Contradicts, Conflicts.Contests, Joined;
    var product := ProductOf(w, c, src.vendor);
    var a := Ingest.Assess(db.observations, w, c, id, src, product, now);
    if a.Assessed? {
      Conflicts.VerdictMembers(a.subject, a.others);
      forall o | o in db.observations && o.product == product && o.channel == c.channel && o.source in w.sources
        ensures Conflicts.Contests(a.subject, Joined(o, w), false) <==> Contradicts(w, c, src, product, o)
        ensures Joined(o, w).o == o && Joined(o, w) in a.others
      {
        ContestMeans(w, c, src, product, o, a.subject);
        JoinedAbout(o, w);
      }
      forall o | Contradicts(w, c, src, product, o)
        ensures o.product == product && o.channel == c.channel && o.source in w.sources { ContradictorIsRead(w, c, src, product, o); }
    }
  }

  lemma JoinedAbout(o: Conflicts.Observation, w: World)
    ensures Joined(o, w).o == o
  {
  }

  lemma ContradictorIsRead(w: World, c: Candidate, src: Source, product: string, o: Conflicts.Observation)
    requires Contradicts(w, c, src, product, o)
    ensures o.product == product && o.channel == c.channel && o.source in w.sources
  {
  }

  /** What the gates are told of the candidate's source, its step and its rivals. */
  lemma ContextMeans(db: Db, w: World, now: int, id: nat)
    requires Ingest.Inspect(db, w, now, id).Success?
    ensures var f, c := Ingest.Inspect(db, w, now, id).value, db.rows[id].c;
      && f.src == w.sources[c.source]
      && f.verdict.decision == Gates.Judge(c, f.context).decision
      && (Refused(c, f.context) <==> Unacceptable(db, w, c, f.src))
      && (!Refused(c, f.context) ==> (Doubtful(c, f.context) <==> Questionable(db, w, now, c, f.src)))
  {
    hide Gates.Judge, Ingest.Assess, Ingest.DuplicateOf, AlreadyPublished, Contradicted, Ingest.ResolveProduct, Collectable, MayCollect,
      ProductSettled, ProductAmbiguous, ProductOf, Blank;
    var f, c := Ingest.Inspect(db, w, now, id).value, db.rows[id].c;
    ResolutionMeans(w, f.src, c);
    CollectableMeans(f.src);
    DuplicateMeans(db, c);
    DisputeMeans(db, w, c, id, f.src, now);
  }

  /**
   What a validation decides. It rejects exactly when the candidate names no product, has no version, comes
   from a source that may not be collected from, repeats a published version, is dated before the bound or
   has no evidence. Otherwise it passes exactly when the product is not ambiguous, the date not in the future
   beyond the tolerance, the step from the latest published version plausible, the source official with
   enough confidence, and no source of its rank or above claims another version; and asks a human if not.
   */
  lemma ValidationDecides(db: Db, w: World, now: int, id: nat)
    requires Ingest.Validate(db, w, now, id).Success?
    ensures id < |db.rows| && db.rows[id].c.source in w.sources
    ensures var c := db.rows[id].c; var src := w.sources[c.source];
      Ingest.Validate(db, w, now, id).value.decision ==
        if Unacceptable(db, w, c, src) then Gates.RejectedBy
        else if Questionable(db, w, now, c, src) then Gates.ReviewRequired
        else Gates.Passed
  {
    hide Ingest.Validate, Ingest.Inspect, Gates.Judge, Refused, Doubtful, Unacceptable, Questionable;
    Ingest.ValidationAnatomy(db, w, now, id);
    ContextMeans(db, w, now, id);
    JudgedBy(db.rows[id].c, Ingest.Inspect(db, w, now, id).value.context);
  }

  // ---------------------------------------------------------------------------------------------
  // What a validation hears
  // ---------------------------------------------------------------------------------------------

  /** A claim in a candidate's own words. */
  predicate Restates(claim: Conflicts.Observation, c: Candidate, id: nat, product: string, now: int) {
    && claim.source == c.source && claim.product == product && claim.channel == c.channel
    && claim.raw == c.version.raw && claim.normalized == c.version.normalized && claim.releaseDate == c.releaseDate
    && claim.candidate == id && claim.observedAt == now
  }

  /** A validation hears something exactly when its source may be collected from and a product is settled, and then the candidate's own words. */
  lemma HeardMeans(db: Db, w: World, now: int, id: nat)
    requires Ingest.Validate(db, w, now, id).Success?
    ensures id < |db.rows| && db.rows[id].c.source in w.sources
    ensures var c := db.rows[id].c; var src := w.sources[c.source];
      && (forall claim | Observations.Hears(db, w, now, id, claim) :: Restates(claim, c, id, ProductOf(w, c, src.vendor), now))
      && ((exists claim :: Observations.Hears(db, w, now, id, claim)) <==> ProductOf(w, c, src.vendor) != "" && Collectable(src))
  {
    hide Ingest.Validate, Ingest.Inspect, Gates.Judge, Ingest.BuildContext, Ingest.ResolveProduct, Collectable, ProductOf,
      MayCollect, Conflicts.AssessSourceConflict, ClaimsFor, OwnClaim, Ingest.RouteToReview, Ingest.DesiredItem, PathTo;
    Ingest.ValidationAnatomy(db, w, now, id);
    var c, f := db.rows[id].c, Ingest.Inspect(db, w, now, id).value;
    ResolutionMeans(w, f.src, c);
    CollectableMeans(f.src);
    if f.a.Assessed? && f.a.subject.eligible { assert Observations.Hears(db, w, now, id, f.a.subject.o); }
  }

  /** Once the clock has started, a validation of a stored candidate of a registered source fails only over a white product it would record. */
  lemma ValidationSucceedsIff(db: Db, w: World, now: int, id: nat)
    requires Observations.ObservationInvariant(db) && now != 0
    ensures Ingest.Validate(db, w, now, id).Success? <==>
      (&& id < |db.rows| && db.rows[id].c.source in w.sources
       && var product := ProductOf(w, db.rows[id].c, w.sources[db.rows[id].c.source].vendor);
          product != "" && Blank(product) ==> !Collectable(w.sources[db.rows[id].c.source]))
  {
    hide Gates.Judge, Ingest.RouteToReview, Ingest.DesiredItem, Ingest.BuildContext, Conflicts.AssessSourceConflict,
      Conflicts.ValidConflict, ClaimsFor, UpsertOpenConflict, OpenConflictFor, Ingest.ResolveProduct, ProductOf, Collectable, MayCollect,
      OwnClaim, Ingest.SettleProduct, Blank;
    if id < |db.rows| && db.rows[id].c.source in w.sources {
      var c := db.rows[id].c;
      var src := w.sources[c.source];
      ResolutionMeans(w, src, c);
      CollectableMeans(src);
      var product := ProductOf(w, c, src.vendor);
      if product != "" && Blank(product) {
        WhiteIsUnheardOf(db, w, c, id, src, product, now);
      } else {
        SettledProductIs(w, src, c);
        Observations.ValidationSucceeds(db, w, now, id);
      }
    }
  }

  lemma SettledProductIs(w: World, src: Source, c: Candidate)
    ensures Ingest.SettleProduct(c, Ingest.ResolveProduct(w, src, c)).product == ProductOf(w, c, src.vendor)
  {
    ResolutionMeans(w, src, c);
  }

  /** No stored claim is about a white product, so a claim about one would be recorded, and is refused. */
  lemma WhiteIsUnheardOf(db: Db, w: World, c: Candidate, id: nat, src: Source, product: string, now: int)
    requires Observations.ObservationInvariant(db) && product != "" && Blank(product)
    requires id < |db.rows| && db.rows[id].c == c
    ensures var a := Ingest.Assess(db.observations, w, c, id, src, product, now);
      && a.Assessed? && a.recordable == MayCollect(src) && !Conflicts.Storable(a.subject.o)
      && (a.subject.eligible <==> MayCollect(src))
  {
    hide Conflicts.AssessSourceConflict, MayCollect;
    assert Observations.ObservationInvariant(db);
    forall o | o in db.observations ensures o.product != product {
      var i :| 0 <= i < |db.observations| && db.observations[i] == o;
      assert Observations.ObservationSound(db, db.observations[i]);
    }
  }
}
