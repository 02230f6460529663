/**
 Runs of the pipeline: any sequence of deliveries, each one atomic use-case call that either commits or
 changes nothing. Validation jobs may be delivered at any time and any number of times; a publication
 job only once it has been enqueued, and then any number of times.
 */
module Runs {
  import opened Wrappers
  import opened Candidates
  import opened Tables
  import Ingest
  import Review

  datatype Delivery =
    | Extraction(source: string, collected: Candidate, now: int)
    | ValidationJob(w: World, now: int, id: nat)
    | PublicationJob(w: World, now: int, id: nat)
    | Decision(w: World, now: int, item: nat, input: Review.Input, accept: bool)
    /** A decision whose page was loaded earlier: seen is what the page showed, however stale. */
    | LateDecision(w: World, now: int, item: nat, seen: ReviewItem, input: Review.Input, accept: bool)

  function Step(db: Db, e: Delivery): Db {
    match e
    case Extraction(source, collected, now) =>
      (var r := Ingest.Extract(db, source, collected, now); if r.Success? then r.value else db)
    case ValidationJob(w, now, id) =>
      (var r := Ingest.Validate(db, w, now, id); if r.Success? then r.value.db else db)
    case PublicationJob(w, now, id) =>
      (if id !in db.jobs then db else
        var r := Ingest.PublishRelease(db, w, now, id); if r.Success? then r.value.db else db)
    case Decision(w, now, item, input, accept) =>
      (if item >= |db.items| then db else
        var r := Review.Decide(db, w, now, item, db.items[item], input, accept); if r.Success? then r.value.db else db)
    case LateDecision(w, now, item, seen, input, accept) =>
      (var r := Review.Decide(db, w, now, item, seen, input, accept); if r.Success? then r.value.db else db)
  }

  /** The tables after a run, from empty ones. */
  function Run(es: seq<Delivery>): Db {
    if |es| == 0 then EMPTY else Step(Run(es[..|es| - 1]), es[|es| - 1])
  }
}
