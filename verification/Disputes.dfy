/**
 What the table of conflicts says: which dispute each row records, when it was last argued, and why it was
 closed, said of the claims stored when it was written.
 */
module Disputes {
  import opened Wrappers
  import opened Text
  import opened Candidates
  import opened Tables
  import Gates
  import Conflicts
  import Ingest
  import Review
  import Coverage
  import Audit
  import opened Verdicts
  import opened Filed
  import opened Runs

  function Standing(w: World, source: string): nat {
    if source in w.sources then Rung(w.sources[source].quality) else 0
  }

  /** The rank a conflict records is that of the most authoritative claim against the candidate. */
  ghost predicate RankedBy(rank: nat, db: Db, w: World, c: Candidate, src: Source) {
    exists o | o in db.observations :: Contradicts(w, c, src, ProductOf(w, c, src.vendor), o)
      && rank == Conflicts.Authority(w.sources[o.source].quality)
      && forall p | p in db.observations && Contradicts(w, c, src, ProductOf(w, c, src.vendor), p) ::
           Standing(w, p.source) <= Standing(w, o.source)
  }

  /** Some claim against the candidate comes from a less authoritative source. */
  ghost predicate Outranks(db: Db, w: World, c: Candidate, src: Source) {
    exists o | o in db.observations :: Disputes(w, c, ProductOf(w, c, src.vendor), o) && o.source in w.sources
      && Rung(w.sources[o.source].quality) < Rung(src.quality)
  }

  /** A row that records the dispute about the candidate, as it stands now. */
  ghost predicate RecordsDispute(k: Conflicts.SourceConflict, db: Db, w: World, now: int, c: Candidate, src: Source) {
    && k.open && k.product == ProductOf(w, c, src.vendor) && k.channel == c.channel && k.lastSeenAt == now
    && NamesVersions(k.versions, db, w, c, src) && NamesSources(k.sources, db, w, c, src) && RankedBy(k.rank, db, w, c, src)
  }

  lemma RankMeans(db: Db, w: World, c: Candidate, id: nat, src: Source, now: int)
    requires c.source in w.sources && src == w.sources[c.source] && ProductOf(w, c, src.vendor) != ""
    ensures var a := Ingest.Assess(db.observations, w, c, id, src, ProductOf(w, c, src.vendor), now);
      a.Assessed? && (a.verdict.status == Conflicts.Unresolved ==> RankedBy(a.verdict.rank, db, w, c, src))
  {
    hide Ingest.Assess, Contradicts, Conflicts.Contests, Collectable, ProductOf, Conflicts.AssessSourceConflict, Rung;
    var product := ProductOf(w, c, src.vendor);
    var a := Ingest.Assess(db.observations, w, c, id, src, product, now);
    SubjectIs(db, w, c, id, src, now);
    ContestersAre(db, w, c, id, src, now);
    if a.verdict.status == Conflicts.Unresolved {
      var k := TopContester(a.subject, a.others);
      JoinedQuality(k.o, w);
      forall p | p in db.observations && Contradicts(w, c, src, product, p)
        ensures Standing(w, p.source) <= Standing(w, k.o.source)
      {
        ContradictorIsRead(w, c, src, product, p);
        JoinedQuality(p, w);
        assert Conflicts.Authority(Joined(p, w).quality) <= a.verdict.rank;
        RungMeans(w.sources[k.o.source].quality, w.sources[p.source].quality);
      }
    }
  }

  lemma JoinedQuality(o: Conflicts.Observation, w: World)
    requires o.source in w.sources
    ensures Joined(o, w).quality == w.sources[o.source].quality && Joined(o, w).o == o
  {
  }

  lemma TopContester(subject: Conflicts.Claim, others: seq<Conflicts.Claim>) returns (k: Conflicts.Claim)
    requires Conflicts.AssessSourceConflict(subject, others).status == Conflicts.Unresolved
    ensures k in others && Conflicts.Contests(subject, k, false)
    ensures Conflicts.Authority(k.quality) == Conflicts.AssessSourceConflict(subject, others).rank
    ensures forall p | p in others && Conflicts.Contests(subject, p, false) ::
      Conflicts.Authority(p.quality) <= Conflicts.AssessSourceConflict(subject, others).rank
  {
    var against := Conflicts.Contesting(subject, others, false);
    assert against[0] in against;
    k :| k in against && Conflicts.TopRank(against) == Conflicts.Authority(k.quality);
  }

  lemma OutrankMeans(db: Db, w: World, c: Candidate, id: nat, src: Source, now: int)
    requires c.source in w.sources && src == w.sources[c.source] && ProductOf(w, c, src.vendor) != ""
    ensures var a := Ingest.Assess(db.observations, w, c, id, src, ProductOf(w, c, src.vendor), now);
      a.Assessed? && (|a.verdict.outrankedVersions| > 0 <==> Outranks(db, w, c, src))
  {
    hide Ingest.Assess, Contradicts, Collectable, ProductOf, Conflicts.AssessSourceConflict, Conflicts.Disagrees, Disputes, Conflicts.Authority, Rung;
    var product := ProductOf(w, c, src.vendor);
    var a := Ingest.Assess(db.observations, w, c, id, src, product, now);
    SubjectIs(db, w, c, id, src, now);
    SubjectQuality(db, w, c, id, src, now);
    ContestersAre(db, w, c, id, src, now);
    OutrankedIff(a.subject, a.others);
    forall o | o in db.observations && o.product == product && o.channel == c.channel && o.source in w.sources
      ensures Conflicts.Contests(a.subject, Joined(o, w), true) <==>
        Disputes(w, c, product, o) && Rung(w.sources[o.source].quality) < Rung(src.quality)
    {
      ContestMeans(w, c, src, product, o, a.subject);
      JoinedQuality(o, w);
      RungMeans(w.sources[o.source].quality, src.quality);
    }
    forall o | Disputes(w, c, product, o) ensures o.product == product && o.channel == c.channel && o.source in w.sources {
      DisputerIsRead(w, c, product, o);
    }
  }

  lemma SubjectQuality(db: Db, w: World, c: Candidate, id: nat, src: Source, now: int)
    requires ProductOf(w, c, src.vendor) != ""
    ensures var a := Ingest.Assess(db.observations, w, c, id, src, ProductOf(w, c, src.vendor), now);
      a.Assessed? && a.subject.quality == src.quality && a.subject.eligible == Collectable(src)
  {
    hide ProductOf, ClaimsFor, OwnClaim, Conflicts.AssessSourceConflict;
    CollectableMeans(src);
  }

  lemma DisputerIsRead(w: World, c: Candidate, product: string, o: Conflicts.Observation)
    requires Disputes(w, c, product, o)
    ensures o.product == product && o.channel == c.channel && o.source in w.sources
  {
  }

  lemma OutrankedIff(subject: Conflicts.Claim, others: seq<Conflicts.Claim>)
    ensures |Conflicts.AssessSourceConflict(subject, others).outrankedVersions| > 0 <==>
      exists k | k in others :: Conflicts.Contests(subject, k, true)
  {
    Conflicts.VerdictMembers(subject, others);
    var v := Conflicts.AssessSourceConflict(subject, others).outrankedVersions;
    if |v| > 0 { assert v[0] in v; }
    if k :| k in others && Conflicts.Contests(subject, k, true) { assert k.o.normalized in v; }
  }

  // ---------------------------------------------------------------------------------------------
  // One validation
  // ---------------------------------------------------------------------------------------------

  /** What reconciling does to the conflict table, said of the claims stored before. */
  ghost predicate Reconciles(ks: seq<Conflicts.SourceConflict>, next: seq<Conflicts.SourceConflict>, conflict: Option<nat>,
                             db: Db, w: World, now: int, c: Candidate, src: Source)
  {
    var product := ProductOf(w, c, src.vendor);
    && (conflict.Some? <==> product != "" && Collectable(src) && Contradicted(db, w, c, src))
    && (conflict.Some? ==>
          var k := conflict.value;
          && k < |next| && RecordsDispute(next[k], db, w, now, c, src)
          && (k < |ks| ==>
                && ks[k].open && ks[k].product == product && ks[k].channel == c.channel
                && next == ks[k := ks[k].(versions := next[k].versions, sources := next[k].sources, rank := next[k].rank, lastSeenAt := now)])
          && (k >= |ks| ==>
                && next == ks + [next[k]] && next[k].detectedAt == now && next[k].reviewItem.None?
                && next[k].resolvedAt == 0 && next[k].resolvedBy == "" && next[k].resolution == ""
                && forall j | 0 <= j < |ks| :: !(ks[j].open && ks[j].product == product && ks[j].channel == c.channel)))
    && (conflict.None? ==>
          || (next == ks && (product != "" && Collectable(src) ==>
                forall j | 0 <= j < |ks| :: !(ks[j].open && ks[j].product == product && ks[j].channel == c.channel)))
          || (product != "" && Collectable(src) && exists k | 0 <= k < |ks| ::
                && ks[k].open && ks[k].product == product && ks[k].channel == c.channel
                && next == ks[k := ks[k].(open := false, resolvedAt := now, resolvedBy := "system",
                     resolution := if Outranks(db, w, c, src) then "resolved by source authority" else "sources agree")]))
  }

  lemma ReconcilingMeans(db: Db, w: World, now: int, id: nat, c: Candidate, src: Source)
    requires c.source in w.sources && src == w.sources[c.source]
    requires Ingest.ReconcileConflict(db.observations, db.conflicts,
      Ingest.Assess(db.observations, w, c, id, src, ProductOf(w, c, src.vendor), now), now).Success?
    ensures var rec := Ingest.ReconcileConflict(db.observations, db.conflicts,
        Ingest.Assess(db.observations, w, c, id, src, ProductOf(w, c, src.vendor), now), now).value;
      Reconciles(db.conflicts, rec.conflicts, rec.outcome.conflict, db, w, now, c, src)
  {
    hide Ingest.Assess, ProductOf, Contradicted, Collectable, Outranks, RankedBy, NamesVersions, NamesSources, MergeParticipants,
      Conflicts.ValidConflict, Conflicts.AssessSourceConflict, Contradicts;
    var product := ProductOf(w, c, src.vendor);
    var a := Ingest.Assess(db.observations, w, c, id, src, product, now);
    AssessedHasProduct(db.observations, w, c, id, src, product, now);
    if a.Assessed? {
      SubjectIs(db, w, c, id, src, now);
      SubjectQuality(db, w, c, id, src, now);
      StatusIsContradicted(db, w, c, id, src, now);
      ListsMean(db, w, c, id, src, now);
      RankMeans(db, w, c, id, src, now);
      OutrankMeans(db, w, c, id, src, now);
    }
  }

  /**
   What a validation does to the conflict table: it names a conflict exactly when the candidate's source may be
   collected from and some claim no lower in rank is against it; the row named records the dispute as it stands
   and is linked to the item reported; without one, a conflict still open for the product and channel is closed.
   */
  lemma ConflictMeans(db: Db, w: World, now: int, id: nat) returns (ks: seq<Conflicts.SourceConflict>)
    requires Ingest.Validate(db, w, now, id).Success?
    ensures id < |db.rows| && db.rows[id].c.source in w.sources
    ensures var v, c := Ingest.Validate(db, w, now, id).value, db.rows[id].c;
      && Reconciles(db.conflicts, ks, v.conflict, db, w, now, c, w.sources[c.source])
      && (v.conflict.None? ==> v.db.conflicts == ks)
      && (v.conflict.Some? ==>
            && v.conflict.value < |ks| && v.item.Some?
            && v.db.conflicts == ks[v.conflict.value := ks[v.conflict.value].(reviewItem := v.item)])
  {
    hide Ingest.Validate, Ingest.Inspect, Ingest.ReconcileConflict, Gates.Judge, Ingest.RouteToReview, Ingest.BuildContext, Ingest.Assess,
      Ingest.ResolveProduct, PathTo, Reconciles, ProductOf, Ingest.DesiredItem, Ingest.SettleProduct;
    Ingest.ValidationAnatomy(db, w, now, id);
    var f, rec, c := Ingest.Inspect(db, w, now, id).value, Ingest.Reconcile(db, w, now, id).value, db.rows[id].c;
    SettledIs(w, c, f.src);
    ReconcilingMeans(db, w, now, id, c, f.src);
    ks := rec.conflicts;
    NamedIsThere(db, ks, rec.outcome.conflict, w, now, c, f.src);
    if Ingest.NeedsItem(f, rec) {
      var judged := Ingest.Judged(db, f, rec, id, now);
      var d := Ingest.DesiredItem(w, judged.rows[id].c, id, f.src, f.verdict, f.a, rec.outcome, now);
      LinkedBy(judged, id, d, c.source, f.a, rec.outcome);
      OutcomeIsLinked(db.observations, db.conflicts, f.a, now);
    }
  }

  lemma NamedIsThere(db: Db, next: seq<Conflicts.SourceConflict>, conflict: Option<nat>, w: World, now: int, c: Candidate, src: Source)
    requires Reconciles(db.conflicts, next, conflict, db, w, now, c, src)
    ensures conflict.Some? ==> conflict.value < |next|
  {
  }

  lemma OutcomeIsLinked(os: seq<Conflicts.Observation>, ks: seq<Conflicts.SourceConflict>, a: Ingest.Assessment, now: int)
    requires Ingest.ReconcileConflict(os, ks, a, now).Success?
    ensures var rec := Ingest.ReconcileConflict(os, ks, a, now).value;
      rec.outcome.conflict.Some? ==>
        && rec.outcome.conflict.value < |rec.conflicts|
        && rec.outcome.linked == rec.conflicts[rec.outcome.conflict.value].reviewItem
  {
    hide Conflicts.ValidConflict, RecordObservation;
  }

  lemma LinkedBy(db: Db, id: nat, d: ReviewItem, source: string, a: Ingest.Assessment, outcome: Ingest.ConflictOutcome)
    ensures var (next, i, _) := Ingest.RouteToReview(db, id, d, source, a, outcome);
      && (outcome.conflict.None? ==> next.conflicts == db.conflicts)
      && (outcome.conflict.Some? && outcome.conflict.value < |db.conflicts| && outcome.linked == db.conflicts[outcome.conflict.value].reviewItem ==>
            next.conflicts == db.conflicts[outcome.conflict.value := db.conflicts[outcome.conflict.value].(reviewItem := Some(i))])
  {
    hide Ingest.OpenItemFor, Ingest.ChooseItem;
  }

  // ---------------------------------------------------------------------------------------------
  // Every run
  // ---------------------------------------------------------------------------------------------

  /** The delivery is a validation that finds its candidate in the dispute row k records. */
  ghost predicate Argues(db: Db, e: Delivery, k: nat) {
    e.ValidationJob? && Ingest.Validate(db, e.w, e.now, e.id).Success? && Ingest.Validate(db, e.w, e.now, e.id).value.conflict == Some(k)
  }

  /** What row k says is what the candidate of this validation was up against. */
  ghost predicate Tells(k: Conflicts.SourceConflict, db: Db, e: Delivery) {
    && e.ValidationJob? && e.id < |db.rows| && db.rows[e.id].c.source in e.w.sources
    && RecordsDispute(k, db, e.w, e.now, db.rows[e.id].c, e.w.sources[db.rows[e.id].c.source])
  }

  lemma TellsWhateverItem(k: Conflicts.SourceConflict, item: Option<nat>, db: Db, e: Delivery)
    requires Tells(k, db, e)
    ensures Tells(k.(reviewItem := item), db, e)
  {
  }

  lemma ArguingTells(db: Db, e: Delivery, k: nat)
    requires Argues(db, e, k)
    ensures k < |Step(db, e).conflicts| && Tells(Step(db, e).conflicts[k], db, e)
  {
    hide Ingest.Validate, RecordsDispute;
    var ks := ConflictMeans(db, e.w, e.now, e.id);
    assert Tells(ks[k], db, e);
    TellsWhateverItem(ks[k], Ingest.Validate(db, e.w, e.now, e.id).value.item, db, e);
  }

  /** Nothing else rewrites an open row: it was there, open, and says what it said. */
  lemma OthersLeaveOpenRows(db: Db, e: Delivery, k: nat)
    requires k < |Step(db, e).conflicts| && Step(db, e).conflicts[k].open && !Argues(db, e, k)
    ensures k < |db.conflicts| && db.conflicts[k].open
    ensures Step(db, e).conflicts[k] == db.conflicts[k]
  {
    hide Ingest.Validate, Review.Decide, Ingest.PublishRelease, RecordsDispute, ProductOf, Contradicted, Outranks, Collectable;
    match e
    case Extraction(source, collected, now) =>
    case ValidationJob(w, now, id) =>
      if Ingest.Validate(db, w, now, id).Success? { var ks := ConflictMeans(db, w, now, id); }
    case PublicationJob(w, now, id) =>
      if Ingest.PublishRelease(db, w, now, id).Success? { PublicationLeavesConflicts(db, w, now, id); }
    case Decision(w, now, item, input, accept) =>
      if item < |db.items| && Review.Decide(db, w, now, item, db.items[item], input, accept).Success? {
        Audit.DecisionCloses(db, w, now, item, db.items[item], input, accept);
      }
    case LateDecision(w, now, item, seen, input, accept) =>
      if Review.Decide(db, w, now, item, seen, input, accept).Success? {
        Audit.DecisionCloses(db, w, now, item, seen, input, accept);
      }
  }

  lemma PublicationLeavesConflicts(db: Db, w: World, now: int, id: nat)
    requires Ingest.PublishRelease(db, w, now, id).Success?
    ensures Ingest.PublishRelease(db, w, now, id).value.db.conflicts == db.conflicts
  {
  }

  /** The last delivery to argue an open row, and what it found, are what the row says. */
  ghost predicate LastArguedBy(es: seq<Delivery>, k: nat, n: nat)
    requires k < |Run(es).conflicts|
  {
    && n < |es| && Argues(Run(es[..n]), es[n], k) && Tells(Run(es).conflicts[k], Run(es[..n]), es[n])
    && forall m | n < m < |es| :: !Argues(Run(es[..m]), es[m], k)
  }

  /**
   Over every run, an open conflict tells of the last validation that was caught up in it: its product and
   channel, the versions and sources then against each other, the rank of the strongest, and when it was.
   */
  lemma {:induction false} OpenConflictTellsLastArgument(es: seq<Delivery>, k: nat) returns (n: nat)
    requires k < |Run(es).conflicts| && Run(es).conflicts[k].open
    ensures LastArguedBy(es, k, n)
  {
    hide Step, Argues, Tells;
    var last := |es| - 1;
    var init := es[..last];
    if Argues(Run(init), es[last], k) {
      ArguingTells(Run(init), es[last], k);
      n := last;
    } else {
      OthersLeaveOpenRows(Run(init), es[last], k);
      n := OpenConflictTellsLastArgument(init, k);
      assert forall m | 0 <= m <= last :: init[..m] == es[..m];
      assert forall m | 0 <= m < last :: init[m] == es[m];
    }
  }
}
