/**
 Published releases and the latest-observed flag: internal/domain/release.go, the release port and
 the flag's handling in PublishRelease. A row's identifier is its position: tables only grow.
 */
module Releases {
  import opened Wrappers
  import opened Text
  import opened PartialDates
  import Candidates

  datatype Release = Release(
    vendor: string, version: Candidates.VersionString, kind: Option<Candidates.ReleaseType>, channel: string,
    releaseDate: PartialDate, firstObservedAt: int, lastVerifiedAt: int, publishedAt: int,
    candidate: nat, evidence: Option<nat>, confidence: real, withdrawn: bool)

  datatype Mapping = Mapping(release: nat, product: string, channel: string, latest: bool)

  datatype Catalog = Catalog(releases: seq<Release>, mappings: seq<Mapping>)

  /** Release.Validate. */
  predicate ValidRelease(r: Release) {
    && !Blank(r.vendor) && r.version.raw != ""
    && r.kind.Some? && r.kind.value != Candidates.UnknownType
    && r.evidence.Some? && 0.0 <= r.confidence <= 1.0
  }

  predicate EligibleForLatest(r: Release) {
    !r.withdrawn && r.kind != Some(Candidates.Advisory)
  }

  function LatestComparison(a: Release, b: Release): int {
    if a.releaseDate.Known() && !b.releaseDate.Known() then 1
    else if !a.releaseDate.Known() && b.releaseDate.Known() then -1
    else if a.releaseDate.Before(b.releaseDate) then -1
    else if b.releaseDate.Before(a.releaseDate) then 1
    else if a.firstObservedAt < b.firstObservedAt then -1
    else if b.firstObservedAt < a.firstObservedAt then 1
    else 0
  }

  /** The comparison orders releases: antisymmetric in sign, and transitive in "not earlier than". */
  lemma ComparisonIsTotalPreorder(a: Release, b: Release, c: Release)
    ensures LatestComparison(a, b) > 0 <==> LatestComparison(b, a) < 0
    ensures LatestComparison(a, a) == 0
    ensures LatestComparison(a, b) >= 0 && LatestComparison(b, c) >= 0 ==> LatestComparison(a, c) >= 0
  {
  }

  predicate InRange(cat: Catalog) {
    forall i | 0 <= i < |cat.mappings| :: cat.mappings[i].release < |cat.releases|
  }

  /** Mappings reference stored releases, as the foreign key demands. */
  type Tables = cat: Catalog | InRange(cat) witness Catalog([], [])

  /** The rows LatestForProduct reads: flagged, of the product, of the channel unless it is empty, not withdrawn. */
  predicate Answers(cat: Catalog, m: Mapping, product: string, channel: string)
    requires m.release < |cat.releases|
  {
    m.product == product && m.latest && (channel == "" || m.channel == channel) && !cat.releases[m.release].withdrawn
  }

  /** LatestForProduct over the first n mapping rows: a release that no row read so far beats. */
  function LatestAmong(cat: Catalog, product: string, channel: string, n: nat): (best: Option<nat>)
    requires InRange(cat) && n <= |cat.mappings|
    ensures best.Some? ==> best.value < |cat.releases|
    ensures best.Some? ==> exists i | 0 <= i < n ::
      Answers(cat, cat.mappings[i], product, channel) && cat.mappings[i].release == best.value
    ensures forall i | 0 <= i < n && Answers(cat, cat.mappings[i], product, channel) ::
      best.Some? && LatestComparison(cat.releases[best.value], cat.releases[cat.mappings[i].release]) >= 0
  {
    if n == 0 then None
    else
      var before := LatestAmong(cat, product, channel, n - 1);
      var m := cat.mappings[n - 1];
      if Answers(cat, m, product, channel)
        && (before.None? || LatestComparison(cat.releases[m.release], cat.releases[before.value]) > 0)
      then Some(m.release) else before
  }

  function LatestForProduct(cat: Catalog, product: string, channel: string): (best: Option<nat>)
    requires InRange(cat)
    ensures best.Some? ==> best.value < |cat.releases|
  {
    LatestAmong(cat, product, channel, |cat.mappings|)
  }

  /** FindDuplicate over the first n mapping rows: the first with this product, channel and version. */
  function DuplicateAmong(cat: Catalog, product: string, normalized: string, channel: string, n: nat): (r: Option<nat>)
    requires InRange(cat) && n <= |cat.mappings|
    ensures r.Some? ==> r.value < |cat.releases| && cat.releases[r.value].version.normalized == normalized
    ensures r.None? <==> forall i | 0 <= i < n :: !IsDuplicate(cat, cat.mappings[i], product, normalized, channel)
  {
    if n == 0 then None
    else
      var before := DuplicateAmong(cat, product, normalized, channel, n - 1);
      if before.Some? then before
      else if IsDuplicate(cat, cat.mappings[n - 1], product, normalized, channel) then Some(cat.mappings[n - 1].release)
      else None
  }

  predicate IsDuplicate(cat: Catalog, m: Mapping, product: string, normalized: string, channel: string)
    requires m.release < |cat.releases|
  {
    m.product == product && m.channel == channel && cat.releases[m.release].version.normalized == normalized
  }

  function FindDuplicate(cat: Catalog, product: string, normalized: string, channel: string): Option<nat>
    requires InRange(cat)
  {
    DuplicateAmong(cat, product, normalized, channel, |cat.mappings|)
  }

  function Cleared(m: Mapping, product: string, channel: string): Mapping {
    if m.product == product && m.channel == channel then m.(latest := false) else m
  }

  function ClearLatestFlag(ms: seq<Mapping>, product: string, channel: string): (r: seq<Mapping>)
    ensures |r| == |ms| && forall i | 0 <= i < |ms| :: r[i] == Cleared(ms[i], product, channel)
  {
    seq(|ms|, i requires 0 <= i < |ms| => Cleared(ms[i], product, channel))
  }

  /** Whether a release about to be published takes the flag of its product and channel. */
  predicate TakesFlag(cat: Catalog, r: Release, product: string)
    requires InRange(cat)
  {
    var latest := LatestForProduct(cat, product, r.channel);
    EligibleForLatest(r) && (latest.None? || LatestComparison(r, cat.releases[latest.value]) > 0)
  }

  /** The catalogue part of PublishRelease: clear, insert the release, insert its one mapping. */
  function Publish(cat: Catalog, r: Release, product: string): (next: Catalog)
    requires InRange(cat)
    ensures InRange(next)
  {
    var flag := TakesFlag(cat, r, product);
    var kept := if flag then ClearLatestFlag(cat.mappings, product, r.channel) else cat.mappings;
    Catalog(cat.releases + [r], kept + [Mapping(|cat.releases|, product, r.channel, flag)])
  }

  /** TouchVerified. */
  function Touch(cat: Catalog, r: nat, now: int): (next: Catalog)
    requires r < |cat.releases|
    ensures InRange(cat) ==> InRange(next)
  {
    cat.(releases := cat.releases[r := cat.releases[r].(lastVerifiedAt := now)])
  }

  // ---------------------------------------------------------------------------------------------
  // What the flag means
  // ---------------------------------------------------------------------------------------------

  predicate Eligible(cat: Catalog, m: Mapping)
    requires m.release < |cat.releases|
  {
    EligibleForLatest(cat.releases[m.release])
  }

  /** Row f is flagged for m's product, and for m's channel if asked, and is not earlier than m. */
  predicate Covers(cat: Catalog, f: Mapping, m: Mapping, sameChannel: bool)
    requires f.release < |cat.releases| && m.release < |cat.releases|
  {
    && f.latest && f.product == m.product && (sameChannel ==> f.channel == m.channel)
    && LatestComparison(cat.releases[f.release], cat.releases[m.release]) >= 0
  }

  ghost predicate Covered(cat: Catalog, m: Mapping)
    requires InRange(cat) && m.release < |cat.releases|
  {
    exists f | 0 <= f < |cat.mappings| :: Covers(cat, cat.mappings[f], m, m.channel != "")
  }

  lemma CoverOf(cat: Catalog, m: Mapping) returns (f: nat)
    requires InRange(cat) && m.release < |cat.releases| && Covered(cat, m)
    ensures f < |cat.mappings| && Covers(cat, cat.mappings[f], m, m.channel != "")
  {
    f :| 0 <= f < |cat.mappings| && Covers(cat, cat.mappings[f], m, m.channel != "");
  }

  lemma CoveredBy(cat: Catalog, m: Mapping, f: nat)
    requires InRange(cat) && m.release < |cat.releases|
    requires f < |cat.mappings| && Covers(cat, cat.mappings[f], m, m.channel != "")
    ensures Covered(cat, m)
  {
  }

  ghost predicate NoneWithdrawn(cat: Catalog) {
    forall i | 0 <= i < |cat.releases| :: !cat.releases[i].withdrawn
  }

  ghost predicate FlagsUnique(cat: Catalog) {
    forall i, j | 0 <= i < j < |cat.mappings| && cat.mappings[i].latest && cat.mappings[j].latest ::
      cat.mappings[i].product != cat.mappings[j].product || cat.mappings[i].channel != cat.mappings[j].channel
  }

  /**
   Nothing is withdrawn; only eligible releases are flagged, at most one a product and channel; and
   every eligible release is covered by a flagged one of its product, of its channel when it has a name.
   */
  ghost predicate LatestInvariant(cat: Catalog) {
    && InRange(cat) && NoneWithdrawn(cat) && FlagsUnique(cat)
    && (forall i | 0 <= i < |cat.mappings| && cat.mappings[i].latest :: Eligible(cat, cat.mappings[i]))
    && (forall i | 0 <= i < |cat.mappings| && Eligible(cat, cat.mappings[i]) :: Covered(cat, cat.mappings[i]))
  }

  /** Publishing any release for any product keeps the invariant. */
  lemma PublishKeepsLatest(cat: Catalog, r: Release, product: string)
    requires LatestInvariant(cat) && !r.withdrawn
    ensures LatestInvariant(Publish(cat, r, product))
  {
    hide LatestComparison, Covered;
    var next := Publish(cat, r, product);
    var n := |cat.mappings|;
    forall i | 0 <= i < n + 1 && Eligible(next, next.mappings[i])
      ensures Covered(next, next.mappings[i])
    {
      if i == n {
        NewRowIsCovered(cat, r, product);
      } else {
        assert Eligible(cat, cat.mappings[i]);
        OldRowStaysCovered(cat, r, product, i);
      }
    }
  }

  lemma OldRowStaysCovered(cat: Catalog, r: Release, product: string, i: nat)
    requires InRange(cat) && NoneWithdrawn(cat) && i < |cat.mappings| && Covered(cat, cat.mappings[i])
    ensures Covered(Publish(cat, r, product), Publish(cat, r, product).mappings[i])
  {
    hide LatestComparison, Covered, Publish, TakesFlag, EligibleForLatest;
    var f := CoverOf(cat, cat.mappings[i]);
    PublishedRows(cat, r, product);
    var g := CoverCarriesOver(cat, r, product, i, f);
    CoveredBy(Publish(cat, r, product), Publish(cat, r, product).mappings[i], g);
  }

  /** The row that covered i still does, or has lost its flag to the new row, which then covers i. */
  lemma CoverCarriesOver(cat: Catalog, r: Release, product: string, i: nat, f: nat) returns (g: nat)
    requires InRange(cat) && NoneWithdrawn(cat) && i < |cat.mappings| && f < |cat.mappings|
    requires Covers(cat, cat.mappings[f], cat.mappings[i], cat.mappings[i].channel != "")
    ensures var next := Publish(cat, r, product);
      g < |next.mappings| && InRange(next) && Covers(next, next.mappings[g], next.mappings[i], next.mappings[i].channel != "")
  {
    hide LatestComparison, Publish, TakesFlag, EligibleForLatest;
    PublishedRows(cat, r, product);
    var held := cat.mappings[f];
    if TakesFlag(cat, r, product) && held.product == product && held.channel == r.channel {
      NewFlagBeatsCleared(cat, r, product, f);
      ComparisonIsTotalPreorder(r, cat.releases[held.release], cat.releases[cat.mappings[i].release]);
      g := |cat.mappings|;
    } else {
      g := f;
    }
  }

  /** The rows after a publication: the new one last, the old ones as they were but for cleared flags. */
  lemma PublishedRows(cat: Catalog, r: Release, product: string)
    requires InRange(cat)
    ensures var next := Publish(cat, r, product);
      && InRange(next) && |next.mappings| == |cat.mappings| + 1 && |next.releases| == |cat.releases| + 1
      && (forall i | 0 <= i < |cat.releases| :: next.releases[i] == cat.releases[i])
      && next.releases[|cat.releases|] == r
      && next.mappings[|cat.mappings|] == Mapping(|cat.releases|, product, r.channel, TakesFlag(cat, r, product))
      && (forall i | 0 <= i < |cat.mappings| :: next.mappings[i] ==
            if TakesFlag(cat, r, product) then Cleared(cat.mappings[i], product, r.channel) else cat.mappings[i])
  {
  }

  lemma NewFlagBeatsCleared(cat: Catalog, r: Release, product: string, f: nat)
    requires InRange(cat) && NoneWithdrawn(cat) && TakesFlag(cat, r, product)
    requires f < |cat.mappings| && cat.mappings[f].latest
    requires cat.mappings[f].product == product && cat.mappings[f].channel == r.channel
    ensures LatestComparison(r, cat.releases[cat.mappings[f].release]) >= 0
  {
    hide LatestComparison;
    var latest := LatestForProduct(cat, product, r.channel);
    assert Answers(cat, cat.mappings[f], product, r.channel);
    ComparisonIsTotalPreorder(r, cat.releases[latest.value], cat.releases[cat.mappings[f].release]);
  }

  lemma NewRowIsCovered(cat: Catalog, r: Release, product: string)
    requires LatestInvariant(cat) && EligibleForLatest(r)
    ensures Covered(Publish(cat, r, product), Publish(cat, r, product).mappings[|cat.mappings|])
  {
    hide LatestComparison, Covered;
    var next := Publish(cat, r, product);
    var n := |cat.mappings|;
    ComparisonIsTotalPreorder(r, r, r);
    if TakesFlag(cat, r, product) {
      CoveredBy(next, next.mappings[n], n);
    } else {
      var latest := LatestForProduct(cat, product, r.channel);
      var f :| 0 <= f < n && Answers(cat, cat.mappings[f], product, r.channel) && cat.mappings[f].release == latest.value;
      ComparisonIsTotalPreorder(r, cat.releases[latest.value], r);
      ComparisonIsTotalPreorder(cat.releases[latest.value], r, r);
      CoveredBy(next, next.mappings[n], f);
    }
  }

  /** Refreshing a release's verification time touches nothing the flag depends on. */
  lemma TouchKeepsLatest(cat: Catalog, r: nat, now: int)
    requires LatestInvariant(cat) && r < |cat.releases|
    ensures LatestInvariant(Touch(cat, r, now))
  {
    hide Covered;
    var next := Touch(cat, r, now);
    forall i | 0 <= i < |cat.mappings| && Eligible(next, next.mappings[i])
      ensures Covered(next, next.mappings[i])
    {
      assert Eligible(cat, cat.mappings[i]);
      var f := CoverOf(cat, cat.mappings[i]);
      CoveredBy(next, next.mappings[i], f);
    }
  }

  /** An eligible release of the product, in the channel asked about when one is named. */
  predicate Published(cat: Catalog, m: Mapping, product: string, channel: string)
    requires m.release < |cat.releases|
  {
    m.product == product && (channel == "" || m.channel == channel) && Eligible(cat, m)
  }

  /**
   What LatestForProduct answers while the invariant holds: a flagged comparison maximum of every
   eligible release published for the product (there, when a channel is named), and no answer exactly
   when there is none.
   */
  lemma LatestIsMaximum(cat: Catalog, product: string, channel: string)
    requires LatestInvariant(cat)
    ensures var latest := LatestForProduct(cat, product, channel);
      && (latest.None? ==> forall i | 0 <= i < |cat.mappings| :: !Published(cat, cat.mappings[i], product, channel))
      && (latest.Some? ==> exists i | 0 <= i < |cat.mappings| ::
            Published(cat, cat.mappings[i], product, channel) && cat.mappings[i].latest && cat.mappings[i].release == latest.value)
      && (latest.Some? ==> forall i | 0 <= i < |cat.mappings| && Published(cat, cat.mappings[i], product, channel) ::
            LatestComparison(cat.releases[latest.value], cat.releases[cat.mappings[i].release]) >= 0)
  {
    hide LatestComparison, Covered;
    var latest := LatestForProduct(cat, product, channel);
    forall i | 0 <= i < |cat.mappings| && Published(cat, cat.mappings[i], product, channel)
      ensures latest.Some? && LatestComparison(cat.releases[latest.value], cat.releases[cat.mappings[i].release]) >= 0
    {
      var f := CoverOf(cat, cat.mappings[i]);
      assert Answers(cat, cat.mappings[f], product, channel);
      ComparisonIsTotalPreorder(cat.releases[latest.value], cat.releases[cat.mappings[f].release], cat.releases[cat.mappings[i].release]);
    }
    if latest.Some? {
      var i :| 0 <= i < |cat.mappings| && Answers(cat, cat.mappings[i], product, channel) && cat.mappings[i].release == latest.value;
      assert Published(cat, cat.mappings[i], product, channel);
    }
  }

  /**
   Exactly when a release takes the flag of its product and channel: when it is later than every eligible
   release published there. A release without a channel is up against those of every channel.
   */
  lemma TakesFlagIff(cat: Catalog, r: Release, product: string)
    requires LatestInvariant(cat) && EligibleForLatest(r)
    ensures TakesFlag(cat, r, product) <==>
      forall i | 0 <= i < |cat.mappings| && Published(cat, cat.mappings[i], product, r.channel) ::
        LatestComparison(r, cat.releases[cat.mappings[i].release]) > 0
  {
    hide LatestComparison, Covered;
    LatestIsMaximum(cat, product, r.channel);
    var latest := LatestForProduct(cat, product, r.channel);
    if latest.Some? {
      forall i | 0 <= i < |cat.mappings| && Published(cat, cat.mappings[i], product, r.channel)
        ensures LatestComparison(r, cat.releases[latest.value]) > 0 ==>
          LatestComparison(r, cat.releases[cat.mappings[i].release]) > 0
      {
        var other := cat.releases[cat.mappings[i].release];
        ComparisonIsTotalPreorder(r, other, r);
        ComparisonIsTotalPreorder(cat.releases[latest.value], other, r);
        ComparisonIsTotalPreorder(r, cat.releases[latest.value], r);
      }
    }
  }

  /**
   The channel-less flag is the one the invariant cannot promise: a release without a channel that is
   not later than one published in a named channel leaves its own product and channel unflagged.
   */
  lemma ChannellessMayStayUnflagged(first: Release, second: Release, product: string)
    requires EligibleForLatest(first) && EligibleForLatest(second)
    requires first.channel != "" && second.channel == "" && LatestComparison(second, first) <= 0
    ensures var cat := Publish(Publish(Catalog([], []), first, product), second, product);
      && |cat.mappings| == 2 && cat.mappings[1] == Mapping(1, product, "", false)
      && Eligible(cat, cat.mappings[1]) && cat.mappings[0].channel != "" && cat.mappings[0].latest
  {
    hide LatestComparison, Covered;
    var empty := Catalog([], []);
    var one := Publish(empty, first, product);
    assert Answers(one, one.mappings[0], product, "");
    var latest := LatestForProduct(one, product, "");
    assert latest == Some(0);
  }
}
