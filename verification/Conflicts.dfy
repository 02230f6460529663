/**
 What each source claims and when claims disagree: internal/domain/conflict.go.
 A stored observation carries neither authority nor eligibility; a claim is an observation joined
 with what the source registry says of its source at the moment it is read.
 */
module Conflicts {
  import opened Wrappers
  import opened Text
  import opened PartialDates

  datatype QualityClass =
    | OfficialManufacturer | AuthorizedPortal | VendorRepository | TrustedCommunity | UnknownThirdParty

  function Authority(q: QualityClass): nat {
    match q
    case OfficialManufacturer => 50
    case AuthorizedPortal => 40
    case VendorRepository => 30
    case TrustedCommunity => 20
    case UnknownThirdParty => 10
  }

  datatype Observation = Observation(
    source: string, product: string, channel: string,
    raw: string, normalized: string, releaseDate: PartialDate,
    candidate: nat, observedAt: int, firstObservedAt: int)

  datatype Claim = Claim(o: Observation, quality: QualityClass, eligible: bool)

  /** SourceObservation.Validate: an instant of 0 is Go's zero time. */
  predicate Storable(o: Observation) {
    !Blank(o.source) && !Blank(o.product) && !Blank(o.raw) && !Blank(o.normalized) && o.observedAt != 0
  }

  predicate LaterObservation(a: Observation, b: Observation) {
    Later(a.releaseDate, a.observedAt, b.releaseDate, b.observedAt)
  }

  datatype Status = NoConflict | Outranked | Unresolved

  datatype Verdict = Verdict(
    status: Status,
    conflictingVersions: seq<string>, conflictingSources: seq<string>,
    outrankedVersions: seq<string>, outrankedSources: seq<string>,
    rank: nat)

  /** A claim that is evidence against the subject's: eligible, from elsewhere, and different. */
  predicate Disagrees(subject: Claim, c: Claim) {
    && c.eligible && c.o.source != "" && c.o.source != subject.o.source
    && !Blank(c.o.normalized) && c.o.normalized != subject.o.normalized
  }

  predicate Below(subject: Claim, c: Claim) {
    Authority(c.quality) < Authority(subject.quality)
  }

  predicate Contests(subject: Claim, c: Claim, below: bool) {
    Disagrees(subject, c) && Below(subject, c) == below
  }

  /** The disagreeing claims that sit below the subject on the ladder, or those that do not. */
  function Contesting(subject: Claim, others: seq<Claim>, below: bool): (r: seq<Claim>)
    ensures forall c :: c in r <==> c in others && Contests(subject, c, below)
  {
    if |others| == 0 then []
    else
      var rest := Contesting(subject, others[..|others| - 1], below);
      var last := others[|others| - 1];
      assert others == others[..|others| - 1] + [last];
      if Contests(subject, last, below) then rest + [last] else rest
  }

  function Versions(cs: seq<Claim>): (r: seq<string>)
    ensures |r| == |cs| && forall i | 0 <= i < |cs| :: r[i] == cs[i].o.normalized
  {
    seq(|cs|, i requires 0 <= i < |cs| => cs[i].o.normalized)
  }

  function Sources(cs: seq<Claim>): (r: seq<string>)
    ensures |r| == |cs| && forall i | 0 <= i < |cs| :: r[i] == cs[i].o.source
  {
    seq(|cs|, i requires 0 <= i < |cs| => cs[i].o.source)
  }

  function TopRank(cs: seq<Claim>): (r: nat)
    ensures forall c | c in cs :: Authority(c.quality) <= r
    ensures r == 0 || exists c | c in cs :: r == Authority(c.quality)
  {
    if |cs| == 0 then 0
    else
      var rest := TopRank(cs[..|cs| - 1]);
      var last := Authority(cs[|cs| - 1].quality);
      assert cs == cs[..|cs| - 1] + [cs[|cs| - 1]];
      if last > rest then last else rest
  }

  function AssessSourceConflict(subject: Claim, others: seq<Claim>): Verdict {
    var against := Contesting(subject, others, false);
    var beneath := Contesting(subject, others, true);
    Verdict(
      if |against| > 0 then Unresolved else if |beneath| > 0 then Outranked else NoConflict,
      SortedSet(Versions(against)), SortedSet(Sources(against)),
      SortedSet(Versions(beneath)), SortedSet(Sources(beneath)),
      TopRank(against))
  }

  // ---------------------------------------------------------------------------------------------
  // What the assessment means
  // ---------------------------------------------------------------------------------------------

  /** The lists of a verdict are non-empty exactly when its status says so, and hold the claimed values. */
  lemma VerdictMembers(subject: Claim, others: seq<Claim>)
    ensures var v := AssessSourceConflict(subject, others);
      && (v.status == Unresolved <==> exists c | c in others :: Contests(subject, c, false))
      && (v.status == Unresolved <==> |v.conflictingVersions| > 0)
      && (v.status != NoConflict <==> |v.conflictingVersions| > 0 || |v.outrankedVersions| > 0)
      && (forall y :: y in v.conflictingVersions <==>
            exists c | c in others :: Contests(subject, c, false) && c.o.normalized == y)
      && (forall y :: y in v.outrankedVersions <==>
            exists c | c in others :: Contests(subject, c, true) && c.o.normalized == y)
  {
    var v := AssessSourceConflict(subject, others);
    VersionMembers(subject, others, false);
    VersionMembers(subject, others, true);
    var against := Contesting(subject, others, false);
    if |against| > 0 {
      assert against[0] in others && Contests(subject, against[0], false);
      assert against[0].o.normalized in v.conflictingVersions;
    }
    if exists c | c in others :: Contests(subject, c, false) {
      var c :| c in others && Contests(subject, c, false);
      assert c in against;
    }
    if |v.conflictingVersions| > 0 {
      assert v.conflictingVersions[0] in v.conflictingVersions;
    }
    var beneath := Contesting(subject, others, true);
    if |beneath| > 0 {
      assert beneath[0] in others && Contests(subject, beneath[0], true);
      assert beneath[0].o.normalized in v.outrankedVersions;
    }
    if |v.outrankedVersions| > 0 {
      assert v.outrankedVersions[0] in v.outrankedVersions;
    }
  }

  lemma VersionMembers(subject: Claim, others: seq<Claim>, below: bool)
    ensures forall y :: y in SortedSet(Versions(Contesting(subject, others, below))) <==>
      exists c | c in others :: Contests(subject, c, below) && c.o.normalized == y
  {
    var cs := Contesting(subject, others, below);
    SortedSetIsCanonical(Versions(cs));
    forall y | exists c | c in others :: Contests(subject, c, below) && c.o.normalized == y
      ensures y in SortedSet(Versions(cs))
    {
      var c :| c in others && Contests(subject, c, below) && c.o.normalized == y;
      assert c in cs;
      var i :| 0 <= i < |cs| && cs[i] == c;
      assert Versions(cs)[i] == y;
    }
    forall y | y in SortedSet(Versions(cs))
      ensures exists c | c in others :: Contests(subject, c, below) && c.o.normalized == y
    {
      var i :| 0 <= i < |cs| && Versions(cs)[i] == y;
      assert cs[i] in cs;
    }
  }

  lemma ContestingExtended(subject: Claim, others: seq<Claim>, c: Claim, below: bool)
    ensures Contesting(subject, others + [c], below)
      == Contesting(subject, others, below) + if Contests(subject, c, below) then [c] else []
  {
    assert (others + [c])[..|others|] == others;
  }

  lemma ListsExtended(cs: seq<Claim>, c: Claim)
    ensures Versions(cs + [c]) == Versions(cs) + [c.o.normalized]
    ensures Sources(cs + [c]) == Sources(cs) + [c.o.source]
    ensures TopRank(cs + [c]) == if Authority(c.quality) > TopRank(cs) then Authority(c.quality) else TopRank(cs)
  {
    assert (cs + [c])[..|cs|] == cs;
  }

  lemma NothingContests(subject: Claim)
    ensures forall below: bool :: var none := Contesting(subject, [], below); Versions(none) == [] && Sources(none) == [] && TopRank(none) == 0
  {
  }

  /** The verdict, and its status from its sorted lists. */
  lemma StatusOf(subject: Claim, others: seq<Claim>)
    ensures var against, beneath := Contesting(subject, others, false), Contesting(subject, others, true);
      var versions, outranked := SortedSet(Versions(against)), SortedSet(Versions(beneath));
      AssessSourceConflict(subject, others) == Verdict(
        if |versions| > 0 then Unresolved else if |outranked| > 0 then Outranked else NoConflict,
        versions, SortedSet(Sources(against)), outranked, SortedSet(Sources(beneath)), TopRank(against))
  {
    hide SortedSet, Versions, Sources, TopRank, Contesting;
    VerdictMembers(subject, others);
  }

  /** AssessSourceConflict as it is written: one pass that skips, demotes or collects each claim. */
  method CollectVerdict(subject: Claim, others: seq<Claim>) returns (v: Verdict)
    ensures v == AssessSourceConflict(subject, others)
  {
    hide Contesting, Versions, Sources, TopRank, SortedSet, AssessSourceConflict, Authority;
    NothingContests(subject);
    var versions, sources, outrankedVersions, outrankedSources, rank := [], [], [], [], 0;
    var subjectRank := Authority(subject.quality);
    assert others[..0] == [];
    for i := 0 to |others|
      invariant versions == Versions(Contesting(subject, others[..i], false))
      invariant sources == Sources(Contesting(subject, others[..i], false))
      invariant outrankedVersions == Versions(Contesting(subject, others[..i], true))
      invariant outrankedSources == Sources(Contesting(subject, others[..i], true))
      invariant rank == TopRank(Contesting(subject, others[..i], false))
    {
      var c := others[i];
      assert others[..i + 1] == others[..i] + [c];
      ContestingExtended(subject, others[..i], c, false);
      ContestingExtended(subject, others[..i], c, true);
      if !c.eligible { continue; }
      if c.o.source == "" || c.o.source == subject.o.source { continue; }
      if Blank(c.o.normalized) { continue; }
      if c.o.normalized == subject.o.normalized { continue; }
      if Authority(c.quality) < subjectRank {
        ListsExtended(Contesting(subject, others[..i], true), c);
        outrankedVersions := outrankedVersions + [c.o.normalized];
        outrankedSources := outrankedSources + [c.o.source];
        continue;
      }
      ListsExtended(Contesting(subject, others[..i], false), c);
      versions := versions + [c.o.normalized];
      sources := sources + [c.o.source];
      if Authority(c.quality) > rank { rank := Authority(c.quality); }
    }
    assert others[..|others|] == others;
    StatusOf(subject, others);
    versions := CollectSortedSet(versions);
    sources := CollectSortedSet(sources);
    outrankedVersions := CollectSortedSet(outrankedVersions);
    outrankedSources := CollectSortedSet(outrankedSources);
    var status := if |versions| > 0 then Unresolved else if |outrankedVersions| > 0 then Outranked else NoConflict;
    v := Verdict(status, versions, sources, outrankedVersions, outrankedSources, rank);
  }

  /**
   Two lists of claims that agree on the claims of other sources get the same verdict: neither the
   order of the rows nor the subject's own row can change it.
   */
  lemma AssessmentIgnoresOrder(subject: Claim, others: seq<Claim>, others': seq<Claim>)
    requires forall c: Claim | c.o.source != subject.o.source :: c in others <==> c in others'
    ensures AssessSourceConflict(subject, others) == AssessSourceConflict(subject, others')
  {
    forall below: bool
      ensures var cs, cs' := Contesting(subject, others, below), Contesting(subject, others', below);
        && SortedSet(Versions(cs)) == SortedSet(Versions(cs'))
        && SortedSet(Sources(cs)) == SortedSet(Sources(cs'))
        && TopRank(cs) == TopRank(cs') && (|cs| > 0 <==> |cs'| > 0)
    {
      SameClaimsSameLists(Contesting(subject, others, below), Contesting(subject, others', below));
    }
  }

  lemma SameClaimsSameLists(cs: seq<Claim>, cs': seq<Claim>)
    requires forall c :: c in cs <==> c in cs'
    ensures SortedSet(Versions(cs)) == SortedSet(Versions(cs'))
    ensures SortedSet(Sources(cs)) == SortedSet(Sources(cs'))
    ensures TopRank(cs) == TopRank(cs')
    ensures |cs| > 0 <==> |cs'| > 0
  {
    ListsInclude(cs, cs');
    ListsInclude(cs', cs);
    SortedSetIgnoresOrder(Versions(cs), Versions(cs'));
    SortedSetIgnoresOrder(Sources(cs), Sources(cs'));
    if |cs| > 0 { assert cs[0] in cs'; }
    if |cs'| > 0 { assert cs'[0] in cs; }
  }

  lemma ListsInclude(cs: seq<Claim>, cs': seq<Claim>)
    requires forall c | c in cs :: c in cs'
    ensures forall y | y in Versions(cs) :: y in Versions(cs')
    ensures forall y | y in Sources(cs) :: y in Sources(cs')
  {
    forall i | 0 <= i < |cs|
      ensures Versions(cs)[i] in Versions(cs') && Sources(cs)[i] in Sources(cs')
    {
      assert cs[i] in cs';
      var j :| 0 <= j < |cs'| && cs'[j] == cs[i];
      assert Versions(cs')[j] == Versions(cs)[i] && Sources(cs')[j] == Sources(cs)[i];
    }
  }

  /** Whenever two eligible sources disagree, at least one of them is left with an open question. */
  lemma NoDisagreementIsSilent(a: Claim, b: Claim, seenByA: seq<Claim>, seenByB: seq<Claim>)
    requires b in seenByA && a in seenByB
    requires Disagrees(a, b) && Disagrees(b, a)
    ensures AssessSourceConflict(a, seenByA).status == Unresolved || AssessSourceConflict(b, seenByB).status == Unresolved
    ensures AssessSourceConflict(a, seenByA).status != NoConflict && AssessSourceConflict(b, seenByB).status != NoConflict
  {
    assert b in Contesting(a, seenByA, Below(a, b));
    assert a in Contesting(b, seenByB, Below(b, a));
  }

  // ---------------------------------------------------------------------------------------------
  // Recorded disagreements
  // ---------------------------------------------------------------------------------------------

  datatype SourceConflict = SourceConflict(
    product: string, channel: string, open: bool, rank: nat,
    versions: seq<string>, sources: seq<string>, reviewItem: Option<nat>,
    detectedAt: int, lastSeenAt: int, resolvedAt: int, resolvedBy: string, resolution: string)

  /** SourceConflict.Validate. */
  predicate ValidConflict(c: SourceConflict) {
    && !Blank(c.product)
    && (c.open ==> |SortedSet(c.versions)| >= 2 && |SortedSet(c.sources)| >= 2 && c.resolvedAt == 0)
    && (!c.open ==> c.resolvedAt != 0)
    && c.detectedAt != 0
  }

  /** The conflict reconcileConflict opens for an unresolved verdict. */
  function NewConflict(subject: Claim, v: Verdict, now: int): SourceConflict {
    SourceConflict(subject.o.product, subject.o.channel, true, v.rank,
      MergeParticipants(subject.o.normalized, v.conflictingVersions),
      MergeParticipants(subject.o.source, v.conflictingSources), None, now, now, 0, "", "")
  }

  /**
   The conflict an unresolved verdict gives rise to always passes Validate: it names at least two
   distinct versions and two distinct sources, the subject's own among them.
   */
  lemma OpenedConflictIsValid(subject: Claim, others: seq<Claim>, now: int)
    requires AssessSourceConflict(subject, others).status == Unresolved
    requires Storable(subject.o) && now != 0
    requires forall c | c in others :: !Blank(c.o.source)
    ensures ValidConflict(NewConflict(subject, AssessSourceConflict(subject, others), now))
  {
    var against := Contesting(subject, others, false);
    var k := NewConflict(subject, AssessSourceConflict(subject, others), now);
    var c := against[0];
    assert c in others && Contests(subject, c, false);
    assert Versions(against)[0] == c.o.normalized && Sources(against)[0] == c.o.source;
    HoldsBoth(subject.o.normalized, c.o.normalized, Versions(against));
    HoldsBoth(subject.o.source, c.o.source, Sources(against));
  }

  /** Merging keeps two distinct non-blank participants apart. */
  lemma HoldsBoth(own: string, other: string, listed: seq<string>)
    requires !Blank(own) && !Blank(other) && own != other && other in listed
    ensures |SortedSet(MergeParticipants(own, SortedSet(listed)))| >= 2
  {
    var all := [own] + SortedSet(listed);
    SortedSetIsCanonical(listed);
    SortedSetIsCanonical(all);
    SortedSetIsCanonical(SortedSet(all));
    var twice := SortedSet(SortedSet(all));
    assert own in all && other in all;
    assert own in twice && other in twice;
  }
}
