/**
 Polite fetching (internal/adapters/fetch/fetcher.go, pace and acquireHost): send slots are reserved under
 a lock and waited for outside it. The lock makes each reservation one step; callers interleave freely
 between their steps, may read the clock before they get the lock, and may give up while they wait.
 Instants and intervals are whole nanoseconds.
 */
module Pacing {
  import opened Wrappers
  import Sets

  // ---------------------------------------------------------------------------------------------
  // Slots
  // ---------------------------------------------------------------------------------------------

  /** The next permitted send time of a host, for a caller that read the clock at now. */
  function SlotFor(next: map<string, int>, host: string, now: int): int {
    if host !in next || next[host] < now then now else next[host]
  }

  function InUse(slots: map<string, nat>, host: string): nat {
    if host in slots then slots[host] else 0
  }

  // ---------------------------------------------------------------------------------------------
  // Callers, step by step
  // ---------------------------------------------------------------------------------------------

  /** Where a caller is: honouring a crawl-delay, holding a host's slot, waiting to send, or sending. */
  datatype Phase = Delaying(host: string, ticket: nat) | Entered(host: string) | Waiting(host: string, ticket: nat) | Sending(host: string)

  /** One reservation: a ticket is its position. sends says it was made to send, not for a crawl-delay. */
  datatype Reservation = Reservation(host: string, slot: int, interval: int, sends: bool, startedAt: Option<int>)

  datatype Start = Start(host: string, at: int)

  datatype System = System(
    next: map<string, int>, slots: map<string, nat>, clock: int,
    callers: map<nat, Phase>, log: seq<Reservation>, started: seq<Start>)

  const IDLE := System(map[], map[], 0, map[], [], [])

  datatype Limits = Limits(perHostConcurrency: nat, minHostInterval: int)

  datatype Move =
    | Tick(to: int)
    | Delay(id: nat, host: string, crawlDelay: int, read: int)
    | DelayOver(id: nat)
    | Enter(id: nat, host: string)
    | Pace(id: nat, read: int)
    | Send(id: nat)
    | GiveUp(id: nat)
    | Finish(id: nat)

  /** A reservation made with a clock reading, and the caller that waits on it. */
  function Reserved(s: System, id: nat, host: string, interval: int, read: int, sends: bool): System {
    var slot := SlotFor(s.next, host, read);
    s.(next := s.next[host := slot + interval],
       log := s.log + [Reservation(host, slot, interval, sends, None)],
       callers := s.callers[id := if sends then Waiting(host, |s.log|) else Delaying(host, |s.log|)])
  }

  function Released(s: System, id: nat, host: string): System {
    s.(slots := s.slots[host := if InUse(s.slots, host) > 0 then InUse(s.slots, host) - 1 else 0], callers := s.callers - {id})
  }

  /** One step of one caller, or of the clock; a step that is not enabled does nothing. */
  function Step(s: System, l: Limits, m: Move): System {
    match m
    case Tick(to) => if to > s.clock then s.(clock := to) else s
    case Delay(id, host, crawlDelay, read) =>
      if id in s.callers || crawlDelay <= 0 || read > s.clock then s else Reserved(s, id, host, crawlDelay, read, false)
    case DelayOver(id) =>
      if id in s.callers && s.callers[id].Delaying? && s.callers[id].ticket < |s.log| && s.log[s.callers[id].ticket].slot <= s.clock
      then s.(callers := s.callers - {id}) else s
    case Enter(id, host) =>
      if id in s.callers || InUse(s.slots, host) >= l.perHostConcurrency then s
      else s.(slots := s.slots[host := InUse(s.slots, host) + 1], callers := s.callers[id := Entered(host)])
    case Pace(id, read) =>
      if id !in s.callers || !s.callers[id].Entered? || read > s.clock then s
      else if l.minHostInterval <= 0 then
        s.(callers := s.callers[id := Sending(s.callers[id].host)], started := s.started + [Start(s.callers[id].host, s.clock)])
      else Reserved(s, id, s.callers[id].host, l.minHostInterval, read, true)
    case Send(id) =>
      if id in s.callers && s.callers[id].Waiting? && s.callers[id].ticket < |s.log| && s.log[s.callers[id].ticket].slot <= s.clock then
        var t := s.callers[id].ticket;
        s.(callers := s.callers[id := Sending(s.callers[id].host)],
           log := s.log[t := s.log[t].(startedAt := Some(s.clock))],
           started := s.started + [Start(s.callers[id].host, s.clock)])
      else s
    case GiveUp(id) =>
      if id !in s.callers then s
      else match s.callers[id] {
        case Delaying(_, _) => s.(callers := s.callers - {id})
        case Waiting(host, _) => Released(s, id, host)
        case _ => s
      }
    case Finish(id) =>
      if id in s.callers && s.callers[id].Sending? then Released(s, id, s.callers[id].host) else s
  }

  function Run(l: Limits, ms: seq<Move>): System {
    if |ms| == 0 then IDLE else Step(Run(l, ms[..|ms| - 1]), l, ms[|ms| - 1])
  }

  // ---------------------------------------------------------------------------------------------
  // Slots are spaced
  // ---------------------------------------------------------------------------------------------

  /** Later slots of a host wait out the interval of every earlier one, and so does its next. */
  ghost predicate Spaced(s: System) {
    && (forall i, j | 0 <= i < j < |s.log| && s.log[i].host == s.log[j].host ::
          s.log[j].slot >= s.log[i].slot + s.log[i].interval)
    && (forall i | 0 <= i < |s.log| ::
          s.log[i].interval > 0 && s.log[i].host in s.next && s.next[s.log[i].host] >= s.log[i].slot + s.log[i].interval)
  }

  lemma ReservingKeepsSpacing(s: System, id: nat, host: string, interval: int, read: int, sends: bool)
    requires Spaced(s) && interval > 0
    ensures Spaced(Reserved(s, id, host, interval, read, sends))
  {
  }

  lemma StepKeepsSpacing(s: System, l: Limits, m: Move)
    requires Spaced(s)
    ensures Spaced(Step(s, l, m))
  {
    hide Spaced;
    var next := Step(s, l, m);
    if next != s {
      match m
      case Delay(id, host, crawlDelay, read) => ReservingKeepsSpacing(s, id, host, crawlDelay, read, false);
      case Pace(id, read) =>
        if l.minHostInterval > 0 {
          ReservingKeepsSpacing(s, id, s.callers[id].host, l.minHostInterval, read, true);
        } else {
          OnlyLogAndNext(s, next);
        }
      case _ => OnlyLogAndNext(s, next);
    }
  }

  /** Spacing depends on the slots and intervals reserved and on the next ones, and on nothing else. */
  lemma OnlyLogAndNext(s: System, t: System)
    requires Spaced(s) && t.next == s.next && |t.log| == |s.log|
    requires forall i | 0 <= i < |s.log| :: t.log[i] == s.log[i].(startedAt := t.log[i].startedAt)
    ensures Spaced(t)
  {
  }

  /** A host's next slot is where some reservation of it ends. */
  ghost predicate NextIsAnEnd(s: System) {
    forall host | host in s.next :: exists i | 0 <= i < |s.log| :: s.log[i].host == host && s.next[host] == s.log[i].slot + s.log[i].interval
  }

  lemma ReservingKeepsEnds(s: System, id: nat, host: string, interval: int, read: int, sends: bool)
    requires NextIsAnEnd(s)
    ensures NextIsAnEnd(Reserved(s, id, host, interval, read, sends))
  {
    var next := Reserved(s, id, host, interval, read, sends);
    forall h | h in next.next
      ensures exists i | 0 <= i < |next.log| :: next.log[i].host == h && next.next[h] == next.log[i].slot + next.log[i].interval
    {
      if h == host {
        assert next.log[|s.log|].host == h;
      } else {
        var i :| 0 <= i < |s.log| && s.log[i].host == h && s.next[h] == s.log[i].slot + s.log[i].interval;
        assert next.log[i] == s.log[i];
      }
    }
  }

  lemma SameEnds(s: System, t: System)
    requires NextIsAnEnd(s) && t.next == s.next && |t.log| == |s.log|
    requires forall i | 0 <= i < |s.log| :: t.log[i] == s.log[i].(startedAt := t.log[i].startedAt)
    ensures NextIsAnEnd(t)
  {
    forall h | h in t.next
      ensures exists i | 0 <= i < |t.log| :: t.log[i].host == h && t.next[h] == t.log[i].slot + t.log[i].interval
    {
      var i :| 0 <= i < |s.log| && s.log[i].host == h && s.next[h] == s.log[i].slot + s.log[i].interval;
      assert t.log[i].host == h;
    }
  }

  lemma {:induction false} RunsKeepEnds(l: Limits, ms: seq<Move>)
    ensures NextIsAnEnd(Run(l, ms))
  {
    hide NextIsAnEnd, Reserved;
    if |ms| > 0 {
      var s, m := Run(l, ms[..|ms| - 1]), ms[|ms| - 1];
      RunsKeepEnds(l, ms[..|ms| - 1]);
      var next := Step(s, l, m);
      if next != s {
        match m
        case Delay(id, host, crawlDelay, read) => ReservingKeepsEnds(s, id, host, crawlDelay, read, false);
        case Pace(id, read) =>
          if l.minHostInterval > 0 {
            ReservingKeepsEnds(s, id, s.callers[id].host, l.minHostInterval, read, true);
          } else {
            SameEnds(s, next);
          }
        case _ => SameEnds(s, next);
      }
    } else {
      NoEnds();
    }
  }

  lemma NoEnds()
    ensures NextIsAnEnd(IDLE)
  {
  }

  /**
   A reservation is no later than it need be: its slot is the caller's own clock reading, or the very instant
   at which some earlier reservation of the host ends.
   */
  lemma SlotIsEarliest(l: Limits, ms: seq<Move>, m: Move)
    requires |Step(Run(l, ms), l, m).log| > |Run(l, ms).log|
    ensures m.Delay? || m.Pace?
    ensures var log, next := Run(l, ms).log, Step(Run(l, ms), l, m).log; var n := |log|;
      && next[..n] == log && |next| == n + 1
      && next[n].slot >= m.read
      && (next[n].slot == m.read || exists i | 0 <= i < n :: log[i].host == next[n].host && next[n].slot == log[i].slot + log[i].interval)
      && next[n].interval == if m.Delay? then m.crawlDelay else l.minHostInterval
  {
    hide Run;
    RunsKeepEnds(l, ms);
  }

  // ---------------------------------------------------------------------------------------------
  // Slots are kept
  // ---------------------------------------------------------------------------------------------

  /** Waiting callers hold tickets of their own, for their own host, not yet used; nothing started early. */
  ghost predicate TicketsSound(s: System) {
    && (forall id | id in s.callers && s.callers[id].Waiting? ::
          && s.callers[id].ticket < |s.log| && s.log[s.callers[id].ticket].sends
          && s.log[s.callers[id].ticket].host == s.callers[id].host && s.log[s.callers[id].ticket].startedAt.None?)
    && (forall a, b | a in s.callers && b in s.callers && a != b && s.callers[a].Waiting? && s.callers[b].Waiting? ::
          s.callers[a].ticket != s.callers[b].ticket)
    && (forall i | 0 <= i < |s.log| && s.log[i].startedAt.Some? ::
          s.log[i].sends && s.log[i].slot <= s.log[i].startedAt.value <= s.clock)
  }

  lemma ReservingKeepsTickets(s: System, id: nat, host: string, interval: int, read: int, sends: bool)
    requires TicketsSound(s)
    ensures TicketsSound(Reserved(s, id, host, interval, read, sends))
  {
  }

  lemma SendingKeepsTickets(s: System, l: Limits, id: nat)
    requires TicketsSound(s)
    ensures TicketsSound(Step(s, l, Send(id)))
  {
    var next := Step(s, l, Send(id));
    if next != s {
      var t := s.callers[id].ticket;
      assert forall i | 0 <= i < |s.log| && i != t :: next.log[i] == s.log[i];
      forall other | other in next.callers && next.callers[other].Waiting? ensures next.callers[other].ticket != t {
        assert s.callers[other] == next.callers[other];
      }
    }
  }

  /** A step that reserves and starts nothing may end waits but begin none, and the clock may advance. */
  lemma WaitingLessKeepsTickets(s: System, t: System)
    requires TicketsSound(s) && t.log == s.log && t.clock >= s.clock
    requires forall id | id in t.callers && t.callers[id].Waiting? :: id in s.callers && s.callers[id] == t.callers[id]
    ensures TicketsSound(t)
  {
  }

  lemma StepKeepsTickets(s: System, l: Limits, m: Move)
    requires TicketsSound(s)
    ensures TicketsSound(Step(s, l, m))
  {
    hide TicketsSound;
    var next := Step(s, l, m);
    if next != s {
      match m
      case Delay(id, host, crawlDelay, read) => ReservingKeepsTickets(s, id, host, crawlDelay, read, false);
      case Pace(id, read) =>
        if l.minHostInterval > 0 {
          ReservingKeepsTickets(s, id, s.callers[id].host, l.minHostInterval, read, true);
        } else {
          WaitingLessKeepsTickets(s, next);
        }
      case Send(id) => SendingKeepsTickets(s, l, id);
      case _ => WaitingLessKeepsTickets(s, next);
    }
  }

  // ---------------------------------------------------------------------------------------------
  // Slots in flight are capped
  // ---------------------------------------------------------------------------------------------

  predicate Holds(p: Phase, host: string) { !p.Delaying? && p.host == host }

  function Holders(callers: map<nat, Phase>, host: string): set<nat> {
    set id | id in callers && Holds(callers[id], host)
  }

  ghost predicate SlotsCounted(s: System, l: Limits) {
    forall host :: |Holders(s.callers, host)| == InUse(s.slots, host) <= l.perHostConcurrency
  }

  lemma HoldersAfterEntering(callers: map<nat, Phase>, id: nat, p: Phase, host: string)
    ensures id !in callers ==>
      |Holders(callers[id := p], host)| == |Holders(callers, host)| + if Holds(p, host) then 1 else 0
    ensures id in callers && (Holds(callers[id], host) <==> Holds(p, host)) ==>
      Holders(callers[id := p], host) == Holders(callers, host)
  {
    var before, after := Holders(callers, host), Holders(callers[id := p], host);
    if id !in callers { assert after == if Holds(p, host) then before + {id} else before; }
  }

  lemma HoldersAfterLeaving(callers: map<nat, Phase>, id: nat, host: string)
    requires id in callers
    ensures |Holders(callers - {id}, host)| == |Holders(callers, host)| - if Holds(callers[id], host) then 1 else 0
  {
    var before, after := Holders(callers, host), Holders(callers - {id}, host);
    assert after == before - {id};
  }

  lemma StepKeepsCount(s: System, l: Limits, m: Move)
    requires SlotsCounted(s, l)
    ensures SlotsCounted(Step(s, l, m), l)
  {
    hide Holders;
    var next := Step(s, l, m);
    forall host ensures |Holders(next.callers, host)| == InUse(next.slots, host) <= l.perHostConcurrency {
      match m
      case Tick(to) =>
      case Delay(id, h, crawlDelay, read) => HoldersAfterEntering(s.callers, id, Delaying(h, |s.log|), host);
      case DelayOver(id) => if id in s.callers { HoldersAfterLeaving(s.callers, id, host); }
      case Enter(id, h) => HoldersAfterEntering(s.callers, id, Entered(h), host);
      case Pace(id, read) =>
        if id in s.callers {
          HoldersAfterEntering(s.callers, id, Waiting(s.callers[id].host, |s.log|), host);
          HoldersAfterEntering(s.callers, id, Sending(s.callers[id].host), host);
        }
      case Send(id) => if id in s.callers { HoldersAfterEntering(s.callers, id, Sending(s.callers[id].host), host); }
      case GiveUp(id) => if id in s.callers { HoldersAfterLeaving(s.callers, id, host); }
      case Finish(id) => if id in s.callers { HoldersAfterLeaving(s.callers, id, host); }
    }
  }

  /** The callers whose request to the host is under way. */
  function InFlight(callers: map<nat, Phase>, host: string): set<nat> {
    set id | id in callers && callers[id] == Sending(host)
  }

  // ---------------------------------------------------------------------------------------------
  // How many requests have started
  // ---------------------------------------------------------------------------------------------

  /** The requests to a host started by an instant. */
  function StartedBy(started: seq<Start>, host: string, until: int): nat {
    if |started| == 0 then 0
    else
      var last := started[|started| - 1];
      StartedBy(started[..|started| - 1], host, until) + if last.host == host && last.at <= until then 1 else 0
  }

  predicate UsedBy(r: Reservation, host: string, until: int) {
    r.host == host && r.startedAt.Some? && r.startedAt.value <= until
  }

  /** The reservations of a host used by an instant. */
  function Used(log: seq<Reservation>, host: string, until: int): nat {
    if |log| == 0 then 0
    else Used(log[..|log| - 1], host, until) + if UsedBy(log[|log| - 1], host, until) then 1 else 0
  }

  lemma {:induction false} UsingOne(log: seq<Reservation>, t: nat, r: Reservation, host: string, until: int)
    requires t < |log| && !UsedBy(log[t], host, until)
    ensures Used(log[t := r], host, until) == Used(log, host, until) + if UsedBy(r, host, until) then 1 else 0
  {
    var n := |log| - 1;
    if t < n {
      UsingOne(log[..n], t, r, host, until);
      assert log[t := r][..n] == log[..n][t := r];
    } else {
      assert log[t := r][..n] == log[..n];
    }
  }

  /** Every start is a use of a reservation, when there is an interval to wait out. */
  ghost predicate StartsAreUses(s: System) {
    forall host, until :: StartedBy(s.started, host, until) == Used(s.log, host, until)
  }

  lemma StepKeepsUses(s: System, l: Limits, m: Move)
    requires StartsAreUses(s) && TicketsSound(s) && l.minHostInterval > 0
    ensures StartsAreUses(Step(s, l, m))
  {
    var next := Step(s, l, m);
    forall host, until ensures StartedBy(next.started, host, until) == Used(next.log, host, until) {
      assert StartedBy(s.started, host, until) == Used(s.log, host, until);
      if |next.log| == |s.log| + 1 { assert next.log[..|s.log|] == s.log; }
      if m.Send? && next != s {
        var t := s.callers[m.id].ticket;
        UsingOne(s.log, t, next.log[t], host, until);
        assert next.started[..|s.started|] == s.started;
      }
    }
  }

  /** Slots reserved to send are followed by the fetcher's own minimum interval. */
  ghost predicate SendsUseMinimum(s: System, l: Limits) {
    forall i | 0 <= i < |s.log| && s.log[i].sends :: s.log[i].interval == l.minHostInterval
  }

  /** The first slot ever reserved for a host. */
  ghost predicate IsFirstSlot(log: seq<Reservation>, host: string, t0: int) {
    exists i | 0 <= i < |log| :: log[i].host == host && log[i].slot == t0 && forall j | 0 <= j < i :: log[j].host != host
  }

  /** The instant n intervals after t0. */
  function After(t0: int, interval: int, n: int): int { t0 + n * interval }

  lemma OneMoreInterval(t0: int, interval: int, n: int)
    ensures After(t0, interval, 0) == t0 && After(t0, interval, n + 1) == After(t0, interval, n) + interval
  {
  }

  lemma NoneBeforeFirst(s: System, host: string, t0: int, i: nat)
    requires Spaced(s) && IsFirstSlot(s.log, host, t0) && i < |s.log| && s.log[i].host == host
    ensures s.log[i].slot >= t0
  {
    var f :| 0 <= f < |s.log| && s.log[f].host == host && s.log[f].slot == t0 && forall j | 0 <= j < f :: s.log[j].host != host;
    assert f == i || s.log[i].slot >= s.log[f].slot + s.log[f].interval;
  }

  /** Among the first n reservations, the last one used comes at least an interval later for each used before it. */
  lemma {:induction false} UsesAreSpread(s: System, l: Limits, host: string, t0: int, until: int, n: nat) returns (last: nat)
    requires Spaced(s) && TicketsSound(s) && SendsUseMinimum(s, l) && n <= |s.log| && IsFirstSlot(s.log, host, t0)
    requires Used(s.log[..n], host, until) > 0
    ensures last < n && UsedBy(s.log[last], host, until)
    ensures s.log[last].slot >= After(t0, l.minHostInterval, Used(s.log[..n], host, until) - 1)
  {
    hide After, IsFirstSlot;
    var m := n - 1;
    assert s.log[..n][..m] == s.log[..m];
    var before, r := Used(s.log[..m], host, until), s.log[m];
    OneMoreInterval(t0, l.minHostInterval, before as int - 1);
    if before > 0 {
      last := UsesAreSpread(s, l, host, t0, until, m);
      if UsedBy(r, host, until) {
        assert r.slot >= s.log[last].slot + s.log[last].interval;
        last := m;
      }
    } else {
      last := m;
      NoneBeforeFirst(s, host, t0, m);
    }
  }

  // ---------------------------------------------------------------------------------------------
  // Every run
  // ---------------------------------------------------------------------------------------------

  lemma StepKeepsMinimum(s: System, l: Limits, m: Move)
    requires SendsUseMinimum(s, l)
    ensures SendsUseMinimum(Step(s, l, m), l)
  {
  }

  lemma {:induction false} RunsKeepInvariants(l: Limits, ms: seq<Move>)
    ensures var s := Run(l, ms);
      && Spaced(s) && TicketsSound(s) && SlotsCounted(s, l) && SendsUseMinimum(s, l)
      && (l.minHostInterval > 0 ==> StartsAreUses(s))
  {
    hide Step, Spaced, TicketsSound, SlotsCounted, SendsUseMinimum, StartsAreUses;
    if |ms| == 0 {
      IdleIsSound(l);
    } else {
      RunsKeepInvariants(l, ms[..|ms| - 1]);
      var s, m := Run(l, ms[..|ms| - 1]), ms[|ms| - 1];
      StepKeepsSpacing(s, l, m);
      StepKeepsTickets(s, l, m);
      StepKeepsCount(s, l, m);
      StepKeepsMinimum(s, l, m);
      if l.minHostInterval > 0 { StepKeepsUses(s, l, m); }
    }
  }

  lemma IdleIsSound(l: Limits)
    ensures Spaced(IDLE) && TicketsSound(IDLE) && SlotsCounted(IDLE, l) && SendsUseMinimum(IDLE, l) && StartsAreUses(IDLE)
  {
    assert forall host :: Holders(IDLE.callers, host) == {};
  }

  /**
   Under any interleaving of callers: each slot comes at least the interval of every earlier one of its
   host after it, and no request, a host's first included, starts before the slot it reserved.
   */
  lemma SlotsAreSpacedAndKept(l: Limits, ms: seq<Move>, j: nat)
    requires j < |Run(l, ms).log|
    ensures var log := Run(l, ms).log;
      && (forall i | 0 <= i < j && log[i].host == log[j].host ::
            log[i].interval > 0 && log[j].slot >= log[i].slot + log[i].interval)
      && (log[j].startedAt.Some? ==> log[j].startedAt.value >= log[j].slot)
  {
    hide Run;
    RunsKeepInvariants(l, ms);
  }

  /** Under any interleaving, the requests in flight to a host never exceed the cap. */
  lemma InFlightIsCapped(l: Limits, ms: seq<Move>, host: string)
    ensures |InFlight(Run(l, ms).callers, host)| <= l.perHostConcurrency
  {
    hide Run;
    RunsKeepInvariants(l, ms);
    var callers := Run(l, ms).callers;
    Sets.SubsetIsSmaller(InFlight(callers, host), Holders(callers, host));
    assert |Holders(callers, host)| <= l.perHostConcurrency;
  }

  /**
   With a minimum interval, at most one request more than the intervals elapsed since the host's first
   slot has started by any instant; none has before that slot.
   */
  lemma StartsAreRateBounded(l: Limits, ms: seq<Move>, host: string, t0: int, until: int)
    requires l.minHostInterval > 0 && IsFirstSlot(Run(l, ms).log, host, t0)
    ensures var n := StartedBy(Run(l, ms).started, host, until);
      n > 0 ==> t0 <= until && n <= 1 + (until - t0) / l.minHostInterval
  {
    hide Run, Spaced, IsFirstSlot;
    RunsKeepInvariants(l, ms);
    var s := Run(l, ms);
    var n := StartedBy(s.started, host, until);
    assert n == Used(s.log, host, until);
    assert s.log[..|s.log|] == s.log;
    if n > 0 {
      var last := UsesAreSpread(s, l, host, t0, until, |s.log|);
      assert s.log[last].slot <= until;
      assert (n - 1) * l.minHostInterval <= until - t0;
      WholeIntervals(n - 1, until - t0, l.minHostInterval);
    }
  }

  lemma WholeIntervals(n: nat, elapsed: int, interval: int)
    requires interval > 0 && n * interval <= elapsed
    ensures 0 <= elapsed && n <= elapsed / interval
  {
    assert n * interval >= 0;
    var q := elapsed / interval;
    assert elapsed < q * interval + interval;
    assert (n - q) * interval < interval;
    LessThanOne(n - q, interval);
  }

  lemma LessThanOne(a: int, c: int)
    requires c > 0 && a * c < c
    ensures a <= 0
  {
  }

  // ---------------------------------------------------------------------------------------------
  // The part under the lock
  // ---------------------------------------------------------------------------------------------

  lemma RunExtended(l: Limits, ms: seq<Move>, m: Move)
    ensures Run(l, ms + [m]) == Step(Run(l, ms), l, m)
  {
    assert (ms + [m])[..|ms|] == ms;
  }

  /**
   The fetcher's two maps. moves records the steps callers have taken so far, and the maps are always
   those of the run of these moves, so whatever holds of every run holds of the gate.
   */
  class HostGate {
    var hostNext: map<string, int>
    var hostSem: map<string, nat>
    const limits: Limits
    ghost var moves: seq<Move>

    constructor (limits: Limits)
      ensures Valid() && this.limits == limits && moves == []
    {
      this.limits := limits;
      hostNext, hostSem, moves := map[], map[], [];
    }

    ghost function View(): System
      reads this
    {
      Run(limits, moves)
    }

    ghost predicate Valid()
      reads this
    {
      hostNext == View().next && hostSem == View().slots
    }

    /** Steps that are none of the gate's business: the clock, a wait that ends, a crawl-delay given up. */
    ghost method Observe(m: Move)
      requires Valid() && Step(View(), limits, m).next == View().next && Step(View(), limits, m).slots == View().slots
      modifies this`moves
      ensures Valid() && moves == old(moves) + [m]
    {
      RunExtended(limits, moves, m);
      moves := moves + [m];
    }

    /** The critical section of pace. */
    method Reserve(host: string, interval: int, now: int) returns (slot: int)
      modifies this`hostNext
      ensures slot == SlotFor(old(hostNext), host, now) && hostNext == old(hostNext)[host := slot + interval]
    {
      slot := now;
      if host in hostNext {
        slot := hostNext[host];
        if slot < now { slot := now; }
      }
      hostNext := hostNext[host := slot + interval];
    }

    /** A caller that reserved a slot now waits for one no earlier than its reading, and clear of every earlier one. */
    ghost predicate HasSlot(id: nat, host: string, slot: int, now: int)
      reads this
    {
      && id in View().callers && (View().callers[id].Waiting? || View().callers[id].Delaying?)
      && View().callers[id].ticket + 1 == |View().log|
      && var r := View().log[View().callers[id].ticket];
         && r.host == host && r.slot == slot >= now
         && forall i | 0 <= i < |View().log| - 1 && View().log[i].host == host :: slot >= View().log[i].slot + View().log[i].interval
    }

    /**
     acquireHost's send on the semaphore: it goes through exactly when fewer callers than the cap hold the
     host, and is then one of the holders, of whom there are never more than the cap.
     */
    method TryEnter(ghost id: nat, host: string) returns (entered: bool)
      requires Valid() && id !in View().callers
      modifies this`hostSem, this`moves
      ensures Valid() && moves == old(moves) + [Enter(id, host)]
      ensures entered <==> |Holders(old(View()).callers, host)| < limits.perHostConcurrency
      ensures entered <==> id in Holders(View().callers, host)
      ensures |Holders(View().callers, host)| <= limits.perHostConcurrency
    {
      EntersIff(limits, moves, id, host);
      hide Run, Holders;
      var used := if host in hostSem then hostSem[host] else 0;
      entered := used < limits.perHostConcurrency;
      if entered { hostSem := hostSem[host := used + 1]; }
      moves := moves + [Enter(id, host)];
    }

    /** acquireHost's pace: the slot to wait for, or none when no interval is kept and the caller may send. */
    method Pace(ghost id: nat, host: string, now: int) returns (slot: Option<int>)
      requires Valid() && id in View().callers && View().callers[id] == Entered(host) && now <= View().clock
      modifies this`hostNext, this`moves
      ensures Valid() && moves == old(moves) + [Move.Pace(id, now)]
      ensures if slot.None? then View().callers[id] == Sending(host) else HasSlot(id, host, slot.value, now)
    {
      RunExtended(limits, moves, Move.Pace(id, now));
      SpacedOverRuns(limits, moves + [Move.Pace(id, now)]);
      slot := None;
      if limits.minHostInterval > 0 {
        var reserved := Reserve(host, limits.minHostInterval, now);
        slot := Some(reserved);
      }
      moves := moves + [Move.Pace(id, now)];
    }

    /** The pace that honours a crawl-delay, before the caller enters. */
    method Delay(ghost id: nat, host: string, crawlDelay: int, now: int) returns (slot: Option<int>)
      requires Valid() && id !in View().callers && now <= View().clock
      modifies this`hostNext, this`moves
      ensures Valid() && moves == old(moves) + [Move.Delay(id, host, crawlDelay, now)]
      ensures if slot.None? then crawlDelay <= 0 && View() == old(View()) else HasSlot(id, host, slot.value, now)
    {
      RunExtended(limits, moves, Move.Delay(id, host, crawlDelay, now));
      SpacedOverRuns(limits, moves + [Move.Delay(id, host, crawlDelay, now)]);
      slot := None;
      if crawlDelay > 0 {
        var reserved := Reserve(host, crawlDelay, now);
        slot := Some(reserved);
      }
      moves := moves + [Move.Delay(id, host, crawlDelay, now)];
    }

    /** release, once the request is done or its wait was given up: one holder fewer. */
    method Leave(ghost id: nat, host: string)
      requires Valid() && id in View().callers
      requires View().callers[id] == Sending(host) || (View().callers[id].Waiting? && View().callers[id].host == host)
      modifies this`hostSem, this`moves
      ensures Valid() && moves == old(moves) + [if old(View()).callers[id].Sending? then Finish(id) else GiveUp(id)]
      ensures Holders(View().callers, host) == Holders(old(View()).callers, host) - {id}
    {
      ghost var m := if View().callers[id].Sending? then Finish(id) else GiveUp(id);
      RunExtended(limits, moves, m);
      CountedOverRuns(limits, moves, host);
      assert id in Holders(View().callers, host);
      hostSem := hostSem[host := hostSem[host] - 1];
      moves := moves + [m];
    }
  }

  lemma CountedOverRuns(l: Limits, ms: seq<Move>, host: string)
    ensures |Holders(Run(l, ms).callers, host)| == InUse(Run(l, ms).slots, host) <= l.perHostConcurrency
  {
    hide Run;
    RunsKeepInvariants(l, ms);
  }

  /** A caller becomes a holder exactly when there is room, and then takes one place. */
  lemma EntersIff(l: Limits, ms: seq<Move>, id: nat, host: string)
    requires id !in Run(l, ms).callers
    ensures var before, after := Run(l, ms), Run(l, ms + [Enter(id, host)]);
      var enters := |Holders(before.callers, host)| < l.perHostConcurrency;
      && |Holders(before.callers, host)| == InUse(before.slots, host) && |Holders(after.callers, host)| <= l.perHostConcurrency
      && (enters <==> id in Holders(after.callers, host))
      && after.next == before.next
      && after.slots == if enters then before.slots[host := InUse(before.slots, host) + 1] else before.slots
  {
    hide Run;
    RunExtended(l, ms, Enter(id, host));
    CountedOverRuns(l, ms, host);
    CountedOverRuns(l, ms + [Enter(id, host)], host);
  }

  lemma SpacedOverRuns(l: Limits, ms: seq<Move>)
    ensures Spaced(Run(l, ms))
  {
    hide Run;
    RunsKeepInvariants(l, ms);
  }
}
