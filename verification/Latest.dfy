/** What a reader is told is the latest release of a product, and when a new one takes its place, in dates and instants only. */
module Latest {
  import opened Wrappers
  import opened Candidates
  import opened Tables
  import PartialDates
  import Releases
  import Ingest
  import Audit
  import opened Runs

  predicate Dated(r: Releases.Release) { r.releaseDate.precision != PartialDates.Unknown }

  /** Neither withdrawn nor an advisory. */
  predicate MayBeLatest(r: Releases.Release) { !r.withdrawn && r.kind != Some(Advisory) }

  /** A mapping of the product, in the channel when one is named, to a release that may be the latest. */
  predicate Offered(cat: Releases.Tables, i: nat, product: string, channel: string)
    requires i < |cat.mappings|
  {
    var m := cat.mappings[i];
    m.product == product && (channel == "" || m.channel == channel) && MayBeLatest(cat.releases[m.release])
  }

  /** r is as new as o: it has a date if o has, no earlier than o's, and with the dates level it was seen no earlier. */
  predicate AsNew(r: Releases.Release, o: Releases.Release) {
    && (Dated(o) ==> Dated(r) && o.releaseDate.anchor <= r.releaseDate.anchor)
    && (!Dated(o) && !Dated(r) ==> o.firstObservedAt <= r.firstObservedAt)
    && (Dated(o) && Dated(r) && o.releaseDate.anchor == r.releaseDate.anchor ==> o.firstObservedAt <= r.firstObservedAt)
  }

  /** r is newer than o: by having a date, by a later one, or with the dates level by being seen later. */
  predicate Newer(r: Releases.Release, o: Releases.Release) {
    || (Dated(r) && !Dated(o))
    || (Dated(r) && Dated(o) && r.releaseDate.anchor > o.releaseDate.anchor)
    || (Dated(r) == Dated(o) && (Dated(r) ==> r.releaseDate.anchor == o.releaseDate.anchor) && r.firstObservedAt > o.firstObservedAt)
  }

  lemma ComparisonMeans(r: Releases.Release, o: Releases.Release)
    ensures Releases.LatestComparison(r, o) >= 0 <==> AsNew(r, o)
    ensures Releases.LatestComparison(r, o) > 0 <==> Newer(r, o)
  {
  }

  lemma OfferedMeans(cat: Releases.Tables, i: nat, product: string, channel: string)
    requires i < |cat.mappings|
    ensures Offered(cat, i, product, channel) <==> Releases.Published(cat, cat.mappings[i], product, channel)
  {
  }

  /** An answer is right when it is on offer and as new as everything on offer, and none is right when nothing is. */
  ghost predicate RightAnswer(cat: Releases.Tables, product: string, channel: string, latest: Option<nat>) {
    && (latest.Some? <==> exists i | 0 <= i < |cat.mappings| :: Offered(cat, i, product, channel))
    && (latest.Some? ==>
          && latest.value < |cat.releases|
          && (exists i | 0 <= i < |cat.mappings| :: Offered(cat, i, product, channel) && cat.mappings[i].release == latest.value)
          && forall i | 0 <= i < |cat.mappings| && Offered(cat, i, product, channel) ::
               AsNew(cat.releases[latest.value], cat.releases[cat.mappings[i].release]))
  }

  lemma MaximumIsRight(cat: Releases.Tables, product: string, channel: string)
    requires Releases.LatestInvariant(cat)
    ensures RightAnswer(cat, product, channel, Releases.LatestForProduct(cat, product, channel))
  {
    hide Offered, AsNew, Releases.LatestComparison, Releases.LatestForProduct, Releases.Published, Releases.LatestInvariant;
    Releases.LatestIsMaximum(cat, product, channel);
    var latest := Releases.LatestForProduct(cat, product, channel);
    forall i | 0 <= i < |cat.mappings|
      ensures Offered(cat, i, product, channel) <==> Releases.Published(cat, cat.mappings[i], product, channel)
      ensures latest.Some? && Releases.LatestComparison(cat.releases[latest.value], cat.releases[cat.mappings[i].release]) >= 0 ==>
        AsNew(cat.releases[latest.value], cat.releases[cat.mappings[i].release])
    {
      OfferedMeans(cat, i, product, channel);
      if latest.Some? { ComparisonMeans(cat.releases[latest.value], cat.releases[cat.mappings[i].release]); }
    }
  }

  /**
   Over every run, what the latest query answers for a product and channel, or for any channel: nothing
   exactly when nothing is on offer there, else one of the releases on offer, as new as every other.
   */
  lemma LatestIsNewest(es: seq<Delivery>, product: string, channel: string)
    ensures RightAnswer(Run(es).catalog, product, channel, Releases.LatestForProduct(Run(es).catalog, product, channel))
  {
    hide Run, RightAnswer, Releases.LatestForProduct, Releases.LatestInvariant;
    Audit.LatestOverRuns(es);
    MaximumIsRight(Run(es).catalog, product, channel);
  }

  /**
   Over every run, a publication enters one release, and its row is flagged exactly when the release may be
   the latest and is newer than all on offer for its product in its channel, or in any if it has none; the
   row it takes the flag from loses it, and no other flag moves.
   */
  lemma NewestTakesFlag(es: seq<Delivery>, w: World, now: int, id: nat)
    requires Ingest.PublishRelease(Run(es), w, now, id).Success? && Ingest.PublishRelease(Run(es), w, now, id).value.published
    ensures var db, next := Run(es), Ingest.PublishRelease(Run(es), w, now, id).value.db;
      var n, r := |db.catalog.mappings|, |db.catalog.releases|;
      && id < |db.rows| && |next.catalog.mappings| == n + 1 && |next.catalog.releases| == r + 1
      && var c, m := db.rows[id].c, next.catalog.mappings[n];
         && m.release == r && m.product == c.product && m.channel == c.channel
         && m.latest == (MayBeLatest(next.catalog.releases[r]) &&
              forall i | 0 <= i < n && Offered(db.catalog, i, c.product, c.channel) ::
                Newer(next.catalog.releases[r], db.catalog.releases[db.catalog.mappings[i].release]))
         && forall i | 0 <= i < n :: next.catalog.mappings[i] == db.catalog.mappings[i].(
              latest := db.catalog.mappings[i].latest &&
                !(m.latest && db.catalog.mappings[i].product == c.product && db.catalog.mappings[i].channel == c.channel))
  {
    hide Run, Offered, Newer, Releases.LatestComparison, Releases.Published, Releases.TakesFlag, Releases.LatestInvariant,
      Ingest.ReleaseFor, Releases.ValidRelease;
    Audit.LatestOverRuns(es);
    var db := Run(es);
    var c, cat := db.rows[id].c, db.catalog;
    var rel := Ingest.ReleaseFor(c, id, w.sources[c.source], now);
    ReleasedIn(c, id, w.sources[c.source], now);
    Releases.PublishedRows(cat, rel, c.product);
    if Releases.EligibleForLatest(rel) { Releases.TakesFlagIff(cat, rel, c.product); } else { IneligibleTakesNone(cat, rel, c.product); }
    forall i | 0 <= i < |cat.mappings|
      ensures Offered(cat, i, c.product, c.channel) <==> Releases.Published(cat, cat.mappings[i], c.product, c.channel)
      ensures Releases.LatestComparison(rel, cat.releases[cat.mappings[i].release]) > 0 <==> Newer(rel, cat.releases[cat.mappings[i].release])
    {
      OfferedMeans(cat, i, c.product, c.channel);
      ComparisonMeans(rel, cat.releases[cat.mappings[i].release]);
    }
  }

  lemma ReleasedIn(c: Candidate, id: nat, src: Source, now: int)
    ensures Ingest.ReleaseFor(c, id, src, now).channel == c.channel
  {
  }

  lemma IneligibleTakesNone(cat: Releases.Tables, r: Releases.Release, product: string)
    requires !Releases.EligibleForLatest(r)
    ensures !Releases.TakesFlag(cat, r, product) && !MayBeLatest(r)
  {
  }
}
