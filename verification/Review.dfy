/** A human accepting or rejecting a queued item: internal/application/review.go. */
module Review {
  import opened Wrappers
  import opened Text
  import opened Candidates
  import opened Tables
  import Conflicts
  import Ingest

  datatype Input = Input(actor: string, authenticated: bool, reason: string)

  /** What the item and its conflict record as the outcome. */
  function Resolution(input: Input, accept: bool): string {
    (if accept then "accepted: " else "rejected: ") + Trim(input.reason)
  }

  datatype Decided = Decided(db: Db, release: Option<nat>, published: bool)

  /** The candidate's share of a decision: publish it, or move it to rejected through the state machine. */
  function DecideCandidate(db: Db, w: World, now: int, id: nat, accept: bool): Result<Decided, Error> {
    if accept then
      var p := Ingest.PublishRelease(db, w, now, id);
      if p.Failure? then Failure(p.error) else Success(Decided(p.value.db, p.value.release, p.value.published))
    else if id >= |db.rows| then Failure(NotFound)
    else if TransitionTo(db.rows[id].c.state, Rejected).None? then Failure(InvalidTransition)
    else Success(Decided(UpdateStates(db, id, if db.rows[id].c.state == Rejected then [] else [Rejected]), None, false))
  }

  function CandidateState(db: Db, s: Subject): Option<State> {
    if s.CandidateSubject? && s.candidate < |db.rows| then Some(db.rows[s.candidate].c.state) else None
  }

  /**
   decide, given the item as the deciding page loaded it: the writes are guarded by the stored row
   (Resolve refuses a closed item, ResolveConflict a closed conflict), and any failure undoes them all.
   */
  function Decide(db: Db, w: World, now: int, item: nat, seen: ReviewItem, input: Input, accept: bool): Result<Decided, Error> {
    if Blank(input.actor) || Blank(input.reason) then Failure(Invalid)
    else if !IsOpen(seen) then Failure(AlreadyDecided)
    else if item >= |db.items| || !IsOpen(db.items[item]) then Failure(NotFound)
    else
      var resolved := db.(items := db.items[item := db.items[item].(
        state := Resolved, resolution := Resolution(input, accept), resolvedBy := input.actor, resolvedAt := now)]);
      var applied :=
        if seen.subject.CandidateSubject? then DecideCandidate(resolved, w, now, seen.subject.candidate, accept)
        else Success(Decided(resolved, None, false));
      if applied.Failure? then Failure(applied.error)
      else
        var after := applied.value.db;
        var k := seen.payload.conflict;
        if k.Some? && (k.value >= |after.conflicts| || !after.conflicts[k.value].open) then Failure(NotFound)
        else
          var settled := if k.None? then after else
            after.(conflicts := after.conflicts[k.value := Closed(after.conflicts[k.value], input.actor, Resolution(input, accept), now)]);
          var before := CandidateState(db, seen.subject);
          var final := if seen.subject.ConflictSubject? then before else Some(if accept then Published else Rejected);
          Success(applied.value.(db := settled.(audit := settled.audit +
            [AuditRow(item, input.actor, input.authenticated, accept, Trim(input.reason), before, final, applied.value.release, now)])))
  }
}
