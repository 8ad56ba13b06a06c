/** What any run of the attempt guard keeps: the storm bound, the pace of refills, tokens and incarnations. */
module GuardRuns {

  import opened AttemptGuard
  import opened Counting
  import opened Identity
  import opened Options

  /** The state after a run of events from a given one. */
  function RanFrom(cfg: Config, g: State, events: seq<Event>): State {
    if events == [] then g else After(cfg, RanFrom(cfg, g, Earlier(events)), Last(events))
  }

  /** The state after a run of events from an unused guard. */
  function Ran(cfg: Config, events: seq<Event>): State {
    RanFrom(cfg, Unused(), events)
  }

  /** A run goes on from wherever an earlier one stopped. */
  lemma {:induction false} RunGoesOn(cfg: Config, before: seq<Event>, stretch: seq<Event>)
    ensures Ran(cfg, before + stretch) == RanFrom(cfg, Ran(cfg, before), stretch)
  {
    hide After;
    if stretch == [] {
      assert before + stretch == before;
    } else {
      RunGoesOn(cfg, before, Earlier(stretch));
      assert Earlier(before + stretch) == before + Earlier(stretch);
    }
  }

  function Earlier(events: seq<Event>): seq<Event>
    requires events != []
  {
    events[..|events| - 1]
  }

  function Last(events: seq<Event>): Event
    requires events != []
  {
    events[|events| - 1]
  }

  // ---- one event, one key ----

  predicate IsAbout(ev: Event, key: string) {
    KeyOf(ev) == Some(key)
  }

  lemma OtherKeysUnchanged(cfg: Config, g: State, ev: Event, key: string)
    requires !ev.Sweep? && !IsAbout(ev, key)
    ensures Slot(After(cfg, g, ev), key) == Slot(g, key)
  {
    hide Allowed, Opened, Failed, Refreshed, IsLive, SameChannel, IdentitySuffix;
  }

  lemma SlotSwept(cfg: Config, g: State, t: int, maxMs: int, key: string)
    ensures Slot(AfterSweep(cfg, g, t, maxMs), key) ==
            if Overdue(Slot(g, key), t, maxMs) then Failed(cfg, Slot(g, key), t) else Slot(g, key)
  {
  }

  // ---- tallies ----

  /** What happened to one identity over a run. */
  datatype Tally = Tally(begins: nat, expiredBegins: nat, failures: nat, binds: nat, releases: nat, refills: nat)

  function Tallied(cfg: Config, g: State, ev: Event, key: string, n: Tally): Tally {
    var e := Slot(g, key);
    if ev.Sweep? then
      if Overdue(e, ev.t, ev.maxMs) then n.(failures := n.failures + 1) else n
    else if !IsAbout(ev, key) then n
    else
      match ev
      case Attempt(_, t) =>
        if Allowed(cfg, e, t)
        then n.(begins := n.begins + 1, expiredBegins := n.expiredBegins + if e.expired then 1 else 0)
        else n
      case End(_, bound, _, k, inc) =>
        if !EndActs(g, key, k, inc) then n
        else if bound then n.(binds := n.binds + 1)
        else n.(failures := n.failures + 1)
      case Release(_, k) => if IsLive(e, k) then n.(releases := n.releases + 1) else n
      case Fresh(_, t) => if RefillDue(cfg, g, key, t) then n.(refills := n.refills + 1) else n
      case _ => n
  }

  const NOTHING: Tally := Tally(0, 0, 0, 0, 0, 0)

  /** The tally of a stretch of events from a given state. */
  function TallyFrom(cfg: Config, g: State, events: seq<Event>, key: string): Tally {
    if events == [] then NOTHING
    else Tallied(cfg, RanFrom(cfg, g, Earlier(events)), Last(events), key, TallyFrom(cfg, g, Earlier(events), key))
  }

  /** Failures an identity may have on one budget: one even when the configured maximum is zero. */
  function Budget(cfg: Config): nat {
    if cfg.maxAttempts == 0 then 1 else cfg.maxAttempts
  }

  function Min(a: nat, b: nat): nat {
    if a < b then a else b
  }

  function Flight(e: Entry): nat {
    if e.inflight then 1 else 0
  }

  ghost predicate EntryOk(cfg: Config, e: Entry) {
    && (if e.expired then e.attempts >= 1 else e.attempts < Budget(cfg))
    && (!cfg.expiryRefill ==> !(e.inflight && e.expired))
  }

  /** The account of a stretch that began with `was` attempts in flight: begins are conserved, failures are within budget. */
  ghost predicate Accounted(cfg: Config, was: nat, e: Entry, n: Tally) {
    && n.begins + was == n.failures + n.binds + n.releases + Flight(e)
    && n.failures + (if e.inflight && e.expired then 1 else 0) <=
         Repeated(Budget(cfg), n.refills + n.binds) + Min(e.attempts, Budget(cfg)) + n.expiredBegins
    && EntryOk(cfg, e)
    && (!cfg.expiryRefill ==> n.expiredBegins == 0)
  }

  lemma AttemptAccounted(cfg: Config, was: nat, g: State, id: Given, t: int, key: string, n: Tally)
    requires Accounted(cfg, was, Slot(g, key), n) && IdentitySuffix(id) == Some(key)
    ensures Accounted(cfg, was, Slot(After(cfg, g, Attempt(id, t)), key), Tallied(cfg, g, Attempt(id, t), key, n))
  {
    hide Repeated, IdentitySuffix;
  }

  lemma FailureAccounted(cfg: Config, was: nat, e: Entry, t: int, n: Tally)
    requires Accounted(cfg, was, e, n) && e.inflight
    ensures Accounted(cfg, was, Failed(cfg, e, t), n.(failures := n.failures + 1))
  {
    hide Repeated;
  }

  lemma EndAccounted(
    cfg: Config, was: nat, g: State, id: Given, bound: bool, t: int, k: Option<nat>, inc: Option<string>,
    key: string, n: Tally)
    requires Accounted(cfg, was, Slot(g, key), n) && IdentitySuffix(id) == Some(key)
    ensures var ev := Event.End(id, bound, t, k, inc);
            Accounted(cfg, was, Slot(After(cfg, g, ev), key), Tallied(cfg, g, ev, key, n))
  {
    hide IdentitySuffix, Failed;
    if EndActs(g, key, k, inc) && !bound {
      FailureAccounted(cfg, was, Slot(g, key), t, n);
    }
    NextBudget(cfg, n);
  }

  lemma NextBudget(cfg: Config, n: Tally)
    ensures Repeated(Budget(cfg), n.refills + n.binds + 1) == Budget(cfg) + Repeated(Budget(cfg), n.refills + n.binds)
  {
  }

  lemma FreshAccounted(cfg: Config, was: nat, g: State, id: Given, t: int, key: string, n: Tally)
    requires Accounted(cfg, was, Slot(g, key), n) && IdentitySuffix(id) == Some(key)
    ensures Accounted(cfg, was, Slot(After(cfg, g, Fresh(id, t)), key), Tallied(cfg, g, Fresh(id, t), key, n))
  {
    hide Repeated, IdentitySuffix;
    NextBudget(cfg, n);
  }

  lemma OtherAccounted(cfg: Config, was: nat, g: State, ev: Event, key: string, n: Tally)
    requires Accounted(cfg, was, Slot(g, key), n) && IsAbout(ev, key)
    requires ev.Attach? || ev.Release? || ev.DeferPath? || ev.Delivered?
    ensures Accounted(cfg, was, Slot(After(cfg, g, ev), key), Tallied(cfg, g, ev, key, n))
  {
    hide Repeated, IdentitySuffix;
  }

  lemma StepAccounted(cfg: Config, was: nat, g: State, ev: Event, key: string, n: Tally)
    requires Accounted(cfg, was, Slot(g, key), n)
    ensures Accounted(cfg, was, Slot(After(cfg, g, ev), key), Tallied(cfg, g, ev, key, n))
  {
    hide Accounted, AfterSweep, Slot, Failed, Overdue, IdentitySuffix;
    if ev.Sweep? {
      SlotSwept(cfg, g, ev.t, ev.maxMs, key);
      if Overdue(Slot(g, key), ev.t, ev.maxMs) {
        OverdueIsInFlight(Slot(g, key), ev.t, ev.maxMs);
        FailureAccounted(cfg, was, Slot(g, key), ev.t, n);
      }
    } else if !IsAbout(ev, key) {
      OtherKeysUnchanged(cfg, g, ev, key);
    } else {
      match ev
      case Attempt(id, t) => AttemptAccounted(cfg, was, g, id, t, key, n);
      case End(id, bound, t, k, inc) => EndAccounted(cfg, was, g, id, bound, t, k, inc, key, n);
      case Fresh(id, t) => FreshAccounted(cfg, was, g, id, t, key, n);
      case _ => OtherAccounted(cfg, was, g, ev, key, n);
    }
  }

  lemma OverdueIsInFlight(e: Entry, t: int, maxMs: int)
    requires Overdue(e, t, maxMs)
    ensures e.inflight
  {
  }

  lemma NothingAccounted(cfg: Config, e: Entry)
    requires EntryOk(cfg, e)
    ensures Accounted(cfg, Flight(e), e, NOTHING)
  {
  }

  lemma {:induction false} StretchAccounted(cfg: Config, g: State, events: seq<Event>, key: string)
    requires EntryOk(cfg, Slot(g, key))
    ensures Accounted(cfg, Flight(Slot(g, key)), Slot(RanFrom(cfg, g, events), key), TallyFrom(cfg, g, events, key))
  {
    hide Accounted, EntryOk, Tallied, After, Slot;
    if events == [] {
      NothingAccounted(cfg, Slot(g, key));
    } else {
      StretchAccounted(cfg, g, Earlier(events), key);
      StepAccounted(cfg, Flight(Slot(g, key)), RanFrom(cfg, g, Earlier(events)), Last(events), key,
                    TallyFrom(cfg, g, Earlier(events), key));
    }
  }

  /** Every stretch of every run is in account. */
  lemma RunAccounted(cfg: Config, before: seq<Event>, stretch: seq<Event>, key: string)
    ensures var g := Ran(cfg, before);
            Accounted(cfg, Flight(Slot(g, key)), Slot(Ran(cfg, before + stretch), key), TallyFrom(cfg, g, stretch, key))
  {
    hide TallyFrom, RanFrom;
    RunGoesOn(cfg, before, stretch);
    StretchAccounted(cfg, Unused(), before, key);
    StretchAccounted(cfg, Ran(cfg, before), stretch, key);
  }

  /** The storm bound, for any stretch of any run: an identity's failures in it stay within one budget for each refill and bind in it, and one more. */
  lemma StormBound(cfg: Config, before: seq<Event>, stretch: seq<Event>, key: string)
    ensures var n := TallyFrom(cfg, Ran(cfg, before), stretch, key);
            && n.failures <= Repeated(Budget(cfg), 1 + n.refills + n.binds) + n.expiredBegins
            && (!cfg.expiryRefill ==> n.expiredBegins == 0)
  {
    hide Accounted, Ran, RanFrom, TallyFrom, Slot, Repeated;
    RunAccounted(cfg, before, stretch, key);
    var g := Ran(cfg, before);
    AccountedBound(cfg, Flight(Slot(g, key)), Slot(Ran(cfg, before + stretch), key), TallyFrom(cfg, g, stretch, key));
  }

  lemma AccountedBound(cfg: Config, was: nat, e: Entry, n: Tally)
    requires Accounted(cfg, was, e, n)
    ensures n.failures <= Repeated(Budget(cfg), 1 + n.refills + n.binds) + n.expiredBegins
    ensures !cfg.expiryRefill ==> n.expiredBegins == 0
  {
    NextBudget(cfg, n);
  }

  /** Nothing begun is lost: in any stretch, what was in flight and what began has ended, was released, or is in flight. */
  lemma BeginsConserved(cfg: Config, before: seq<Event>, stretch: seq<Event>, key: string)
    ensures var g := Ran(cfg, before);
            var n := TallyFrom(cfg, g, stretch, key);
            n.begins + Flight(Slot(g, key)) ==
            n.failures + n.binds + n.releases + Flight(Slot(Ran(cfg, before + stretch), key))
  {
    RunAccounted(cfg, before, stretch, key);
  }

  /** With a maximum of zero attempts one failure still gets through, so the bound with the bare maximum needs it to be positive. */
  lemma ZeroMaximumFailsOnce(cfg: Config, id: Given)
    requires cfg.maxAttempts == 0 && IdentitySuffix(id).Some?
    ensures var n := TallyFrom(cfg, Unused(), [Attempt(id, 0), Event.End(id, false, 0, None, None)], IdentitySuffix(id).value);
            n.failures == 1 && n.refills + n.binds == 0 && n.failures > Repeated(cfg.maxAttempts, 1)
  {
    hide IdentitySuffix;
    var key := IdentitySuffix(id).value;
    var one := [Attempt(id, 0)];
    var two := one + [Event.End(id, false, 0, None, None)];
    assert Earlier(one) == [] && Earlier(two) == one;
    assert RanFrom(cfg, Unused(), Earlier(one)) == Unused();
    assert Ran(cfg, one) == After(cfg, Unused(), one[0]);
    assert Slot(Ran(cfg, one), key).inflight && Slot(Ran(cfg, one), key).inc.None?;
    assert TallyFrom(cfg, Unused(), one, key) == Tallied(cfg, Unused(), one[0], key, NOTHING);
    assert TallyFrom(cfg, Unused(), one, key) == Tally(1, 0, 0, 0, 0, 0);
    assert TallyFrom(cfg, Unused(), two, key) ==
           Tallied(cfg, Ran(cfg, one), two[1], key, TallyFrom(cfg, Unused(), one, key));
    assert Repeated(0, 1) == 0;
  }

  /** Every run keeps to the bare maximum exactly when that maximum is positive. */
  lemma BareMaximumIff(cfg: Config, id: Given)
    requires !cfg.expiryRefill && IdentitySuffix(id).Some?
    ensures var key := IdentitySuffix(id).value;
            (forall events: seq<Event> :: WithinBareMaximum(cfg, events, key)) <==> cfg.maxAttempts >= 1
  {
    hide IdentitySuffix, TallyFrom, Repeated;
    var key := IdentitySuffix(id).value;
    if cfg.maxAttempts == 0 {
      ZeroMaximumFailsOnce(cfg, id);
      var events := [Attempt(id, 0), Event.End(id, false, 0, None, None)];
      assert !WithinBareMaximum(cfg, events, key);
    } else {
      forall events: seq<Event> ensures WithinBareMaximum(cfg, events, key) {
        StormBound(cfg, [], events, key);
        assert Ran(cfg, []) == Unused();
      }
    }
  }

  ghost predicate WithinBareMaximum(cfg: Config, events: seq<Event>, key: string) {
    var n := TallyFrom(cfg, Unused(), events, key);
    n.failures <= Repeated(cfg.maxAttempts, 1 + n.refills + n.binds)
  }

  // ---- the pace of refills ----

  /** When the refills of a stretch were granted. */
  function RefillTimes(cfg: Config, g: State, events: seq<Event>, key: string): seq<int> {
    if events == [] then []
    else
      var ev := Last(events);
      RefillTimes(cfg, g, Earlier(events), key) +
      if ev.Fresh? && IsAbout(ev, key) && RefillDue(cfg, RanFrom(cfg, g, Earlier(events)), key, ev.t) then [ev.t] else []
  }

  lemma LastRefillMoves(cfg: Config, g: State, ev: Event, key: string)
    ensures var due := ev.Fresh? && IsAbout(ev, key) && RefillDue(cfg, g, key, ev.t);
            var after := After(cfg, g, ev).lastRefill;
            && (key in after <==> due || key in g.lastRefill)
            && (key in after ==> after[key] == if due then ev.t else g.lastRefill[key])
  {
    hide Allowed, Opened, Failed, Refreshed, IsLive, SameChannel, IdentitySuffix;
  }

  /** Any two granted refills are as many windows apart as there are refills between them. */
  ghost predicate Paced(window: nat, times: seq<int>) {
    forall i, j :: 0 <= i <= j < |times| ==> times[j] - times[i] >= Repeated(window, j - i)
  }

  lemma PacedNext(window: nat, times: seq<int>, t: int)
    requires Paced(window, times) && (times != [] ==> t - times[|times| - 1] >= window)
    ensures Paced(window, times + [t])
  {
    var all := times + [t];
    forall i, j | 0 <= i <= j < |all| ensures all[j] - all[i] >= Repeated(window, j - i) {
      if i < j == |times| {
        assert times[|times| - 1] - times[i] >= Repeated(window, |times| - 1 - i);
      }
    }
  }

  /** Granted refills keep their pace in every stretch, whatever the clock did; there are as many as the tally says. */
  lemma {:induction false} RefillsPaced(cfg: Config, g: State, events: seq<Event>, key: string)
    ensures var times := RefillTimes(cfg, g, events, key);
            var last := RanFrom(cfg, g, events).lastRefill;
            && Paced(cfg.refillWindowMs, times)
            && |times| == TallyFrom(cfg, g, events, key).refills
            && (key in last <==> times != [] || key in g.lastRefill)
            && (times != [] ==> last[key] == times[|times| - 1])
            && (times != [] && key in g.lastRefill ==> times[0] - g.lastRefill[key] >= cfg.refillWindowMs)
            && (times == [] && key in last ==> last[key] == g.lastRefill[key])
  {
    hide After, RefillDue, IsAbout, Allowed, Paced;
    if events == [] {
      NoneIsPaced(cfg.refillWindowMs);
    } else {
      RefillsPaced(cfg, g, Earlier(events), key);
      var h := RanFrom(cfg, g, Earlier(events));
      LastRefillMoves(cfg, h, Last(events), key);
      TallyOfRefill(cfg, h, Last(events), key, TallyFrom(cfg, g, Earlier(events), key));
      DueIsLater(cfg, h, Last(events), key);
      var times := RefillTimes(cfg, g, Earlier(events), key);
      if RefillTimes(cfg, g, events, key) != times {
        PacedNext(cfg.refillWindowMs, times, Last(events).t);
      }
    }
  }

  lemma NoneIsPaced(window: nat)
    ensures Paced(window, [])
  {
  }

  lemma TallyOfRefill(cfg: Config, g: State, ev: Event, key: string, n: Tally)
    ensures Tallied(cfg, g, ev, key, n).refills ==
            n.refills + if ev.Fresh? && IsAbout(ev, key) && RefillDue(cfg, g, key, ev.t) then 1 else 0
  {
  }

  lemma DueIsLater(cfg: Config, g: State, ev: Event, key: string)
    ensures ev.Fresh? && RefillDue(cfg, g, key, ev.t) && key in g.lastRefill ==>
              ev.t - g.lastRefill[key] >= cfg.refillWindowMs
  {
  }

  /** The refills granted within an interval of time. */
  ghost function Within(times: seq<int>, start: int, span: nat): set<nat> {
    set k: nat | k < |times| && start <= times[k] <= start + span
  }

  lemma {:induction false} RangeCount(low: nat, high: nat, s: set<nat>)
    requires low <= high && forall k :: k in s ==> low <= k < high
    ensures |s| <= high - low
  {
    if low == high {
      assert s == {};
    } else {
      RangeCount(low, high - 1, s - {high - 1});
      assert s <= s - {high - 1} + {high - 1};
    }
  }

  lemma {:induction false} Ends(s: set<nat>) returns (low: nat, high: nat)
    requires s != {}
    ensures low in s && high in s && forall k :: k in s ==> low <= k <= high
  {
    var k :| k in s;
    if s == {k} {
      low, high := k, k;
    } else {
      low, high := Ends(s - {k});
      assert s == (s - {k}) + {k};
      low, high := if k < low then k else low, if k > high then k else high;
    }
  }

  /** In any interval of time there are at most one refill more than the windows that fit in it. */
  lemma RefillsInInterval(cfg: Config, before: seq<Event>, stretch: seq<Event>, key: string, start: int, span: nat)
    ensures var granted := Within(RefillTimes(cfg, Ran(cfg, before), stretch, key), start, span);
            granted != {} ==> Repeated(cfg.refillWindowMs, |granted| - 1) <= span
  {
    hide RefillTimes, Ran, RanFrom, TallyFrom;
    var times := RefillTimes(cfg, Ran(cfg, before), stretch, key);
    var granted := Within(times, start, span);
    RefillsPaced(cfg, Ran(cfg, before), stretch, key);
    if granted != {} {
      var low, high := Ends(granted);
      RangeCount(low, high + 1, granted);
      RepeatedMonotone(cfg.refillWindowMs, |granted| - 1, high - low);
    }
  }

  /** The storm bound over time: in a stretch whose refills fall within a span, failures are bounded by one budget for the start, one for each bind, and one for each refill the span has room for. */
  lemma StormBoundOverSpan(cfg: Config, before: seq<Event>, stretch: seq<Event>, key: string, start: int, span: nat)
    requires !cfg.expiryRefill
    requires forall t :: t in RefillTimes(cfg, Ran(cfg, before), stretch, key) ==> start <= t <= start + span
    ensures var n := TallyFrom(cfg, Ran(cfg, before), stretch, key);
            && n.failures <= Repeated(Budget(cfg), 1 + n.refills + n.binds)
            && (n.refills > 0 ==> Repeated(cfg.refillWindowMs, n.refills - 1) <= span)
  {
    hide RefillTimes, Ran, RanFrom, TallyFrom, Repeated;
    StormBound(cfg, before, stretch, key);
    RefillsPaced(cfg, Ran(cfg, before), stretch, key);
    var times := RefillTimes(cfg, Ran(cfg, before), stretch, key);
    if times != [] {
      assert times[0] in times && times[|times| - 1] in times;
      assert times[|times| - 1] - times[0] >= Repeated(cfg.refillWindowMs, |times| - 1);
    }
  }

  // ---- tokens ----

  /** The tokens whose attempts an event completes. */
  function Completed(g: State, ev: Event): set<nat> {
    if ev.Sweep? then set key | key in g.entries && Overdue(g.entries[key], ev.t, ev.maxMs) :: g.entries[key].k
    else
      match KeyOf(ev)
      case None => {}
      case Some(key) =>
        match ev
        case End(_, _, _, k, inc) => if EndActs(g, key, k, inc) then {Slot(g, key).k} else {}
        case Release(_, k) => if IsLive(Slot(g, key), k) then {Slot(g, key).k} else {}
        case _ => {}
  }

  function CompletedIn(cfg: Config, events: seq<Event>): set<nat> {
    if events == [] then {}
    else CompletedIn(cfg, Earlier(events)) + Completed(Ran(cfg, Earlier(events)), Last(events))
  }

  ghost predicate TokensOk(g: State, done: set<nat>) {
    && (forall key :: key in g.entries && g.entries[key].inflight ==>
          1 <= g.entries[key].k <= g.issued && g.entries[key].k !in done)
    && (forall a, b :: a in g.entries && b in g.entries && a != b && g.entries[a].inflight && g.entries[b].inflight ==>
          g.entries[a].k != g.entries[b].k)
    && (forall k :: k in done ==> k <= g.issued)
  }

  lemma SweepKeepsTokens(cfg: Config, g: State, t: int, maxMs: int, done: set<nat>)
    requires TokensOk(g, done)
    ensures TokensOk(AfterSweep(cfg, g, t, maxMs), done + Completed(g, Event.Sweep(t, maxMs)))
  {
    hide Failed;
    var h := AfterSweep(cfg, g, t, maxMs);
    forall key | key in h.entries ensures h.entries[key].inflight ==> h.entries[key] == g.entries[key] && !Overdue(g.entries[key], t, maxMs) {
      FailedNotInFlight(cfg, g.entries[key], t);
    }
  }

  lemma FailedNotInFlight(cfg: Config, e: Entry, t: int)
    ensures !Failed(cfg, e, t).inflight
  {
  }

  /** One key's entry changed: its attempt went on, a new one took the next token, or it completed. */
  lemma OneKeyKeepsTokens(g: State, h: State, key: string, done: set<nat>, completed: set<nat>)
    requires TokensOk(g, done)
    requires forall other :: other != key ==> (other in h.entries <==> other in g.entries)
    requires forall other :: other != key && other in h.entries ==> h.entries[other] == g.entries[other]
    requires g.issued <= h.issued
    requires completed == {} || (Slot(g, key).inflight && completed == {Slot(g, key).k} && !Slot(h, key).inflight)
    requires Slot(h, key).inflight ==>
               || (Slot(g, key).inflight && Slot(h, key).k == Slot(g, key).k)
               || Slot(h, key).k == h.issued == g.issued + 1
    ensures TokensOk(h, done + completed)
  {
    forall other | other in h.entries && h.entries[other].inflight
      ensures 1 <= h.entries[other].k <= h.issued && h.entries[other].k !in done + completed
    {
    }
  }

  lemma EventKeepsTokens(cfg: Config, g: State, ev: Event, done: set<nat>)
    requires TokensOk(g, done) && !ev.Sweep?
    ensures TokensOk(After(cfg, g, ev), done + Completed(g, ev))
  {
    hide TokensOk;
    if KeyOf(ev).Some? {
      EventChangesOneKey(cfg, g, ev, KeyOf(ev).value);
      OneKeyKeepsTokens(g, After(cfg, g, ev), KeyOf(ev).value, done, Completed(g, ev));
    } else {
      assert done + Completed(g, ev) == done;
    }
  }

  lemma EventChangesOneKey(cfg: Config, g: State, ev: Event, key: string)
    requires IsAbout(ev, key)
    ensures var h := After(cfg, g, ev);
            && (forall other :: other != key ==> (other in h.entries <==> other in g.entries))
            && (forall other :: other != key && other in h.entries ==> h.entries[other] == g.entries[other])
            && g.issued <= h.issued
            && (Slot(h, key).inflight ==>
                  || (Slot(g, key).inflight && Slot(h, key).k == Slot(g, key).k)
                  || Slot(h, key).k == h.issued == g.issued + 1)
            && (Completed(g, ev) == {} ||
                (Slot(g, key).inflight && Completed(g, ev) == {Slot(g, key).k} && !Slot(h, key).inflight))
  {
    hide IdentitySuffix, SameChannel, RefillDue, Pow;
  }

  lemma {:induction false} RunKeepsTokens(cfg: Config, events: seq<Event>)
    ensures TokensOk(Ran(cfg, events), CompletedIn(cfg, events))
  {
    hide TokensOk, After, Completed;
    if events == [] {
      NoTokens();
    } else {
      RunKeepsTokens(cfg, Earlier(events));
      var g, ev := Ran(cfg, Earlier(events)), Last(events);
      if ev.Sweep? {
        SweepKeepsTokens(cfg, g, ev.t, ev.maxMs, CompletedIn(cfg, Earlier(events)));
        AfterOfSweep(cfg, g, ev);
      } else {
        EventKeepsTokens(cfg, g, ev, CompletedIn(cfg, Earlier(events)));
      }
    }
  }

  lemma NoTokens()
    ensures TokensOk(Unused(), {})
  {
  }

  lemma AfterOfSweep(cfg: Config, g: State, ev: Event)
    requires ev.Sweep?
    ensures After(cfg, g, ev) == AfterSweep(cfg, g, ev.t, ev.maxMs)
  {
  }

  /** Every token acts at most once: no event completes an attempt whose token completed one before. */
  lemma TokenActsOnce(cfg: Config, events: seq<Event>, ev: Event)
    ensures Completed(Ran(cfg, events), ev) !! CompletedIn(cfg, events)
    ensures !ev.Sweep? ==> |Completed(Ran(cfg, events), ev)| <= 1
  {
    RunKeepsTokens(cfg, events);
  }

  /** Only its own completion ends an attempt: any other event leaves its token, start and flight as they are. */
  lemma OnlyCompletionEnds(cfg: Config, g: State, ev: Event, key: string)
    requires Slot(g, key).inflight && TokensOk(g, {})
    ensures var e, f := Slot(g, key), Slot(After(cfg, g, ev), key);
            && (!f.inflight <==> e.k in Completed(g, ev))
            && (f.inflight ==> f.k == e.k && f.beganAt == e.beganAt)
            && (f.inflight && !ev.Attach? ==> f.inc == e.inc)
  {
    hide IdentitySuffix, RefillDue;
    if ev.Sweep? {
      SlotSwept(cfg, g, ev.t, ev.maxMs, key);
    } else if !IsAbout(ev, key) {
      OtherKeysUnchanged(cfg, g, ev, key);
    }
  }

  // ---- incarnations ----

  /** The token and incarnation last attached for an identity. */
  function LastAttached(cfg: Config, events: seq<Event>, key: string): Option<(nat, Option<string>)> {
    if events == [] then None
    else NextAttached(Ran(cfg, Earlier(events)), Last(events), key, LastAttached(cfg, Earlier(events), key))
  }

  /** A release that keeps the entry keeps the incarnation too: it happens when failures, expiry or a path backoff are on record. */
  predicate LeavesIncarnation(g: State, ev: Event, key: string) {
    var e := Slot(g, key);
    && ev.Release? && IsAbout(ev, key) && IsLive(e, ev.k)
    && e.inc.Some? && (e.attempts > 0 || e.expired || e.noPath > 0)
  }

  ghost predicate OwnIncarnation(e: Entry, attached: Option<(nat, Option<string>)>) {
    e.inc.Some? ==> e.inflight && attached == Some((e.k, e.inc))
  }

  function NextAttached(g: State, ev: Event, key: string, last: Option<(nat, Option<string>)>): Option<(nat, Option<string>)> {
    if ev.Attach? && IsAbout(ev, key) && IsLive(Slot(g, key), Some(ev.token))
    then Some((ev.token, if ev.inc == Some("") then None else ev.inc))
    else last
  }

  lemma StepKeepsIncarnation(cfg: Config, g: State, ev: Event, key: string, last: Option<(nat, Option<string>)>)
    requires OwnIncarnation(Slot(g, key), last) && !LeavesIncarnation(g, ev, key)
    ensures OwnIncarnation(Slot(After(cfg, g, ev), key), NextAttached(g, ev, key, last))
  {
    hide IdentitySuffix, RefillDue, Pow;
    if ev.Sweep? {
      SlotSwept(cfg, g, ev.t, ev.maxMs, key);
    } else if !IsAbout(ev, key) {
      hide After;
      OtherKeysUnchanged(cfg, g, ev, key);
    }
  }

  /** While no release leaves an incarnation behind, an attempt's recorded incarnation is the one attached to that attempt. */
  lemma {:induction false} IncarnationIsOwn(cfg: Config, events: seq<Event>, key: string)
    requires forall i :: 0 <= i < |events| ==> !LeavesIncarnation(Ran(cfg, events[..i]), events[i], key)
    ensures OwnIncarnation(Slot(Ran(cfg, events), key), LastAttached(cfg, events, key))
  {
    if events != [] {
      var n := |events| - 1;
      forall i | 0 <= i < n ensures !LeavesIncarnation(Ran(cfg, Earlier(events)[..i]), Earlier(events)[i], key) {
        assert Earlier(events)[..i] == events[..i];
      }
      IncarnationIsOwn(cfg, Earlier(events), key);
      assert events[..n] == Earlier(events);
      StepKeepsIncarnation(cfg, Ran(cfg, Earlier(events)), Last(events), key, LastAttached(cfg, Earlier(events), key));
    }
  }

  /** Exactly such a release makes the identity's next attempt start with the old channel's incarnation. */
  lemma ReleaseLeaksIncarnation(cfg: Config, g: State, id: Given, k: Option<nat>, t: int)
    requires IdentitySuffix(id).Some?
    requires var key := IdentitySuffix(id).value;
             && IsLive(Slot(g, key), k)
             && Allowed(cfg, Slot(AfterRelease(g, key, k), key), t)
    ensures var key := IdentitySuffix(id).value;
            var h := After(cfg, After(cfg, g, Release(id, k)), Attempt(id, t));
            && Slot(h, key).inflight
            && (Slot(h, key).inc.Some? <==> LeavesIncarnation(g, Release(id, k), key))
            && (LeavesIncarnation(g, Release(id, k), key) ==>
                  && Slot(h, key).inc == Slot(g, key).inc
                  && EndActs(h, key, None, Slot(g, key).inc)
                  && forall c :: c != Slot(g, key).inc && c.Some? ==> !EndActs(h, key, None, c))
  {
    hide IdentitySuffix;
  }

  /** It does happen: fail once, dial again, attach, release, and dial a third time. */
  lemma LeakIsReachable(s: string)
    requires |s| == 64 && IsHex(s)
    ensures var cfg := Config(4, 30000, 2, 60000, 45000, false);
            var id := Text(s);
            var events := [Attempt(id, 0), Event.End(id, false, 0, None, None), Attempt(id, 30000),
                           Event.Attach(id, 2, Some("A")), Release(id, Some(2)), Attempt(id, 30000)];
            Slot(Ran(cfg, events), s) == Entry(1, true, 3, 30000, 30000, false, 0, 0, Some("A"))
  {
    var cfg := Config(4, 30000, 2, 60000, 45000, false);
    var id := Text(s);
    var events := [Attempt(id, 0), Event.End(id, false, 0, None, None), Attempt(id, 30000),
                   Event.Attach(id, 2, Some("A")), Release(id, Some(2)), Attempt(id, 30000)];
    assert IdentitySuffix(id) == Some(s);
    RanNext(cfg, events, 0, s);
    assert Slot(Ran(cfg, events[..1]), s) == Entry(0, true, 1, 0, 0, false, 0, 0, None);
    RanNext(cfg, events, 1, s);
    assert Slot(Ran(cfg, events[..2]), s) == Entry(1, false, 0, 0, 30000, false, 0, 0, None);
    RanNext(cfg, events, 2, s);
    assert Slot(Ran(cfg, events[..3]), s) == Entry(1, true, 2, 30000, 30000, false, 0, 0, None);
    RanNext(cfg, events, 3, s);
    assert Slot(Ran(cfg, events[..4]), s) == Entry(1, true, 2, 30000, 30000, false, 0, 0, Some("A"));
    RanNext(cfg, events, 4, s);
    assert Slot(Ran(cfg, events[..5]), s) == Entry(1, false, 0, 30000, 30000, false, 0, 0, Some("A"));
    RanNext(cfg, events, 5, s);
    assert events[..6] == events;
  }

  lemma RanNext(cfg: Config, events: seq<Event>, i: nat, key: string)
    requires i < |events|
    ensures Ran(cfg, events[..i + 1]) == After(cfg, Ran(cfg, events[..i]), events[i])
    ensures i == 0 ==> Ran(cfg, events[..i]) == Unused()
  {
    assert Earlier(events[..i + 1]) == events[..i];
  }
}
