/** When the attempt guard lets an identity be dialed again: after a failure, after exhaustion, and off a known path. */
module GuardPacing {

  import opened AttemptGuard
  import opened Counting
  import opened GuardRuns
  import opened Identity
  import opened Options

  // ---- what one event does to the next time ----

  /** The event began an attempt at the identity. */
  predicate Begins(cfg: Config, g: State, ev: Event, key: string) {
    Tallied(cfg, g, ev, key, NOTHING).begins > 0
  }

  /** The event was counted as a failure of the identity. */
  predicate Fails(cfg: Config, g: State, ev: Event, key: string) {
    Tallied(cfg, g, ev, key, NOTHING).failures > 0
  }

  /** Nothing happened to the identity that could move its next time. */
  predicate Idle(n: Tally) {
    n.begins == 0 && n.failures == 0 && n.binds == 0 && n.refills == 0
  }

  lemma BeginsOnTime(cfg: Config, g: State, ev: Event, key: string)
    requires Begins(cfg, g, ev, key)
    ensures ev.Attempt? && !Slot(g, key).inflight && (Slot(g, key).expired ==> cfg.expiryRefill)
    ensures ev.t >= Slot(g, key).nextAt && ev.t >= Slot(g, key).pathUntil
    ensures Slot(g, key).expired ==> Slot(After(cfg, g, ev), key).nextAt == ev.t + cfg.refillWindowMs
    ensures Slot(After(cfg, g, ev), key).attempts == Slot(g, key).attempts
    ensures Slot(After(cfg, g, ev), key).expired == Slot(g, key).expired
  {
    hide IdentitySuffix;
  }

  /** The wait a counted failure asks for: a backoff that grows by the factor, and a refill window once the budget is spent. */
  function Wait(cfg: Config, failures: nat): int
    requires failures >= 1
  {
    if failures < cfg.maxAttempts then cfg.baseMs * Pow(cfg.factor, failures - 1) else cfg.refillWindowMs
  }

  lemma FailureWaits(cfg: Config, g: State, ev: Event, key: string)
    requires Fails(cfg, g, ev, key)
    ensures ev.End? || ev.Sweep?
    ensures var f := Slot(After(cfg, g, ev), key);
            && f.attempts == Slot(g, key).attempts + 1 && !f.inflight
            && (f.attempts < cfg.maxAttempts ==> f.nextAt == ev.t + cfg.baseMs * Pow(cfg.factor, f.attempts - 1))
            && (f.attempts >= cfg.maxAttempts ==> f.nextAt == ev.t + cfg.refillWindowMs && f.expired)
  {
    hide IdentitySuffix;
    if ev.Sweep? {
      SlotSwept(cfg, g, ev.t, ev.maxMs, key);
    }
  }

  lemma IdleKeeps(cfg: Config, g: State, ev: Event, key: string)
    requires Slot(g, key).attempts >= 1 && Idle(Tallied(cfg, g, ev, key, NOTHING))
    ensures var e, f := Slot(g, key), Slot(After(cfg, g, ev), key);
            f.attempts == e.attempts && f.nextAt == e.nextAt && f.expired == e.expired
  {
    hide IdentitySuffix;
    if ev.Sweep? {
      SlotSwept(cfg, g, ev.t, ev.maxMs, key);
    }
  }

  // ---- what the other events leave on record ----

  /** A completion acts on the live attempt alone, unless it names another channel incarnation than the attempt's; a bind clears the record. */
  lemma EndLeaves(cfg: Config, g: State, id: Given, bound: bool, t: int, k: Option<nat>, inc: Option<string>)
    requires IdentitySuffix(id).Some?
    ensures var key := IdentitySuffix(id).value;
            var e, h := Slot(g, key), After(cfg, g, End(id, bound, t, k, inc));
            var f := Slot(h, key);
            if e.inflight && (k == None || k == Some(e.k)) && (inc == None || e.inc == None || inc == e.inc) then
              if bound then key !in h.entries && f == BLANK
              else !f.inflight && f.inc == None && f.attempts == e.attempts + 1 && f.noPath == e.noPath && f.pathUntil == e.pathUntil
            else h == g
  {
    hide IdentitySuffix, Pow;
  }

  /** A release returns the live attempt uncounted: what was on record stays on record. */
  lemma ReleaseLeaves(cfg: Config, g: State, id: Given, k: Option<nat>)
    requires IdentitySuffix(id).Some?
    ensures var key := IdentitySuffix(id).value;
            var e, h := Slot(g, key), After(cfg, g, Release(id, k));
            var f := Slot(h, key);
            if e.inflight && (k == None || k == Some(e.k)) then
              && !f.inflight && f.attempts == e.attempts && f.expired == e.expired && f.noPath == e.noPath
              && (if e.attempts > 0 || e.expired || e.noPath > 0 then f.nextAt == e.nextAt && f.pathUntil == e.pathUntil
                  else f == BLANK)
            else h == g
  {
    hide IdentitySuffix;
  }

  /** A sweep fails the attempts in flight for longer than it allows, and leaves every other entry as it is. */
  lemma SweepLeaves(cfg: Config, g: State, t: int, maxMs: int, key: string)
    ensures var e, f := Slot(g, key), Slot(After(cfg, g, Sweep(t, maxMs)), key);
            if e.inflight && t - e.beganAt > maxMs then !f.inflight && f.attempts == e.attempts + 1 && f.noPath == e.noPath
            else f == e
  {
    hide Pow;
    SlotSwept(cfg, g, t, maxMs, key);
  }

  /** A fresh record is honoured once a window; the budget and both backoffs are then new, and a live attempt goes on. */
  lemma FreshLeaves(cfg: Config, g: State, id: Given, t: int)
    requires IdentitySuffix(id).Some?
    ensures var key := IdentitySuffix(id).value;
            var e, h := Slot(g, key), After(cfg, g, Fresh(id, t));
            var f := Slot(h, key);
            if key in g.lastRefill && t - g.lastRefill[key] < cfg.refillWindowMs then h == g
            else
              && h.lastRefill == g.lastRefill[key := t]
              && f.attempts == 0 && !f.expired && f.nextAt == 0 && f.noPath == 0 && f.pathUntil == 0
              && f.inflight == e.inflight
              && (if e.inflight then f.k == e.k && f.inc == e.inc && f.beganAt == e.beganAt else f == BLANK)
  {
    hide IdentitySuffix;
  }

  /** A delivery over the path clears the path backoff and nothing else that is on record. */
  lemma DeliveredLeaves(cfg: Config, g: State, id: Given)
    requires IdentitySuffix(id).Some?
    ensures var key := IdentitySuffix(id).value;
            var e, f := Slot(g, key), Slot(After(cfg, g, Delivered(id)), key);
            && f.noPath == 0 && f.pathUntil == 0
            && f.attempts == e.attempts && f.expired == e.expired && f.inflight == e.inflight
            && (e.attempts > 0 || e.expired ==> f.nextAt == e.nextAt)
            && (e.inflight ==> f.k == e.k && f.inc == e.inc && f.beganAt == e.beganAt)
            && (e.attempts == 0 && !e.expired && !e.inflight ==> f == BLANK)
  {
    hide IdentitySuffix;
  }

  /** A non-delivery over the path counts once, up to the most that are counted, and touches nothing but the path backoff. */
  lemma DeferLeaves(cfg: Config, g: State, id: Given, t: int, ms: int)
    requires IdentitySuffix(id).Some?
    ensures var key := IdentitySuffix(id).value;
            var e, f := Slot(g, key), Slot(After(cfg, g, DeferPath(id, t, ms)), key);
            && f == e.(noPath := f.noPath, pathUntil := t + ms)
            && (e.noPath < 30 ==> f.noPath == e.noPath + 1) && (e.noPath >= 30 ==> f.noPath == 30)
  {
    hide IdentitySuffix;
  }

  // ---- stretches ----

  lemma TallyAdds(cfg: Config, g: State, ev: Event, key: string, n: Tally)
    ensures var one, m := Tallied(cfg, g, ev, key, NOTHING), Tallied(cfg, g, ev, key, n);
            && m.begins == n.begins + one.begins && m.failures == n.failures + one.failures
            && m.binds == n.binds + one.binds && m.releases == n.releases + one.releases
            && m.refills == n.refills + one.refills
  {
    hide IdentitySuffix;
  }

  lemma {:induction false} IdleStretch(cfg: Config, g: State, events: seq<Event>, key: string)
    requires Slot(g, key).attempts >= 1 && Idle(TallyFrom(cfg, g, events, key))
    ensures var e, f := Slot(g, key), Slot(RanFrom(cfg, g, events), key);
            f.attempts == e.attempts && f.nextAt == e.nextAt && f.expired == e.expired
  {
    hide Tallied, After, Slot;
    if events != [] {
      var h := RanFrom(cfg, g, Earlier(events));
      TallyAdds(cfg, h, Last(events), key, TallyFrom(cfg, g, Earlier(events), key));
      IdleStretch(cfg, g, Earlier(events), key);
      IdleKeeps(cfg, h, Last(events), key);
    }
  }

  /** Nothing fails or binds that was not begun. */
  lemma RestingIsIdle(cfg: Config, g: State, events: seq<Event>, key: string)
    requires EntryOk(cfg, Slot(g, key)) && !Slot(g, key).inflight
    requires var n := TallyFrom(cfg, g, events, key); n.begins == 0 && n.refills == 0
    ensures Idle(TallyFrom(cfg, g, events, key))
  {
    hide TallyFrom, RanFrom, Slot, EntryOk;
    StretchAccounted(cfg, g, events, key);
  }

  /** Without a refill or a bind the attempts on record are the failures counted. */
  lemma {:induction false} AttemptsAreFailures(cfg: Config, g: State, events: seq<Event>, key: string)
    requires var n := TallyFrom(cfg, g, events, key); n.refills == 0 && n.binds == 0
    ensures Slot(RanFrom(cfg, g, events), key).attempts ==
            Slot(g, key).attempts + TallyFrom(cfg, g, events, key).failures
  {
    hide Tallied, After, Slot;
    if events != [] {
      var h := RanFrom(cfg, g, Earlier(events));
      TallyAdds(cfg, h, Last(events), key, TallyFrom(cfg, g, Earlier(events), key));
      AttemptsAreFailures(cfg, g, Earlier(events), key);
      OneMoreFailure(cfg, h, Last(events), key);
    }
  }

  lemma OneMoreFailure(cfg: Config, g: State, ev: Event, key: string)
    requires var n := Tallied(cfg, g, ev, key, NOTHING); n.refills == 0 && n.binds == 0
    ensures Slot(After(cfg, g, ev), key).attempts ==
            Slot(g, key).attempts + Tallied(cfg, g, ev, key, NOTHING).failures
  {
    hide IdentitySuffix;
    if ev.Sweep? {
      SlotSwept(cfg, g, ev.t, ev.maxMs, key);
    }
  }

  lemma RunEntryOk(cfg: Config, events: seq<Event>, key: string)
    ensures EntryOk(cfg, Slot(Ran(cfg, events), key))
  {
    hide Accounted, TallyFrom;
    StretchAccounted(cfg, Unused(), events, key);
    AccountedIsOk(cfg, Flight(Slot(Unused(), key)), Slot(Ran(cfg, events), key), TallyFrom(cfg, Unused(), events, key));
  }

  lemma AccountedIsOk(cfg: Config, was: nat, e: Entry, n: Tally)
    requires Accounted(cfg, was, e, n)
    ensures EntryOk(cfg, e)
  {
  }

  // ---- the retry ----

  /**
   * The backoff. From a clean record the n-th counted failure, with no bind or refill since, keeps the identity from
   * being dialed for baseMs * factor^(n - 1), and once the budget is spent for a refill window, if it is dialed at all.
   */
  lemma RetryBacksOff(
    cfg: Config, before: seq<Event>, burst: seq<Event>, wait: seq<Event>, ev: Event, key: string)
    requires burst != [] && Slot(Ran(cfg, before), key).attempts == 0
    requires var n := TallyFrom(cfg, Ran(cfg, before), burst, key); n.refills == 0 && n.binds == 0
    requires Fails(cfg, Ran(cfg, before + Earlier(burst)), Last(burst), key)
    requires var m := TallyFrom(cfg, Ran(cfg, before + burst), wait, key); m.begins == 0 && m.refills == 0
    requires Begins(cfg, Ran(cfg, before + burst + wait), ev, key)
    ensures var n := TallyFrom(cfg, Ran(cfg, before), burst, key).failures;
            && n >= 1 && (Last(burst).End? || Last(burst).Sweep?)
            && ev.t >= Last(burst).t + Wait(cfg, n)
            && (n >= cfg.maxAttempts ==> cfg.expiryRefill)
  {
    hide Tallied, After, Slot, EntryOk, TallyFrom, Idle, Begins, Fails;
    var g, h := Ran(cfg, before), Ran(cfg, before + Earlier(burst));
    RunGoesOn(cfg, before, burst);
    RunGoesOn(cfg, before, Earlier(burst));
    RunGoesOn(cfg, before + burst, wait);
    AttemptsAreFailures(cfg, g, burst, key);
    FailureWaits(cfg, h, Last(burst), key);
    var failed := Ran(cfg, before + burst);
    assert failed == After(cfg, h, Last(burst));
    RunEntryOk(cfg, before + burst, key);
    RestingIsIdle(cfg, failed, wait, key);
    IdleStretch(cfg, failed, wait, key);
    BeginsOnTime(cfg, Ran(cfg, before + burst + wait), ev, key);
  }

  /** An exhausted identity that is dialed is not dialed again within a refill window, whether or not that attempt failed. */
  lemma ExhaustedIsPaced(cfg: Config, before: seq<Event>, first: Event, wait: seq<Event>, ev: Event, key: string)
    requires Slot(Ran(cfg, before), key).expired && Begins(cfg, Ran(cfg, before), first, key)
    requires Idle(TallyFrom(cfg, Ran(cfg, before + [first]), wait, key))
    requires Begins(cfg, Ran(cfg, before + [first] + wait), ev, key)
    ensures first.Attempt? && ev.t >= first.t + cfg.refillWindowMs
  {
    hide Tallied, After, Slot, TallyFrom, Idle, Begins;
    var g := Ran(cfg, before);
    RunEntryOk(cfg, before, key);
    BeginsOnTime(cfg, g, first, key);
    assert Earlier(before + [first]) == before;
    assert Ran(cfg, before + [first]) == After(cfg, g, first);
    RunGoesOn(cfg, before + [first], wait);
    IdleStretch(cfg, Ran(cfg, before + [first]), wait, key);
    BeginsOnTime(cfg, Ran(cfg, before + [first] + wait), ev, key);
  }

  // ---- the path backoff ----

  /** The event says something about the path to the identity. */
  predicate IsOfPath(ev: Event, key: string) {
    (ev.DeferPath? || ev.Delivered?) && IsAbout(ev, key)
  }

  lemma PathKept(cfg: Config, g: State, ev: Event, key: string)
    requires Slot(g, key).noPath >= 1 && !IsOfPath(ev, key)
    requires var n := Tallied(cfg, g, ev, key, NOTHING); n.binds == 0 && n.refills == 0
    ensures Slot(After(cfg, g, ev), key).noPath >= 1
    ensures Slot(After(cfg, g, ev), key).pathUntil == Slot(g, key).pathUntil
  {
    hide IdentitySuffix;
    if ev.Sweep? {
      SlotSwept(cfg, g, ev.t, ev.maxMs, key);
    }
  }

  lemma {:induction false} PathStretch(cfg: Config, g: State, events: seq<Event>, key: string)
    requires Slot(g, key).noPath >= 1 && forall ev :: ev in events ==> !IsOfPath(ev, key)
    requires var n := TallyFrom(cfg, g, events, key); n.binds == 0 && n.refills == 0
    ensures Slot(RanFrom(cfg, g, events), key).noPath >= 1
    ensures Slot(RanFrom(cfg, g, events), key).pathUntil == Slot(g, key).pathUntil
  {
    hide Tallied, After, Slot, IsOfPath;
    if events != [] {
      var h := RanFrom(cfg, g, Earlier(events));
      TallyAdds(cfg, h, Last(events), key, TallyFrom(cfg, g, Earlier(events), key));
      PathStretch(cfg, g, Earlier(events), key);
      PathKept(cfg, h, Last(events), key);
    }
  }

  /** A confirmed non-delivery keeps the identity from being dialed, whoever asks, until its cooldown is over or the path is known good. */
  lemma PathBacksOff(cfg: Config, before: seq<Event>, id: Given, t: int, ms: int, wait: seq<Event>, ev: Event)
    requires IdentitySuffix(id).Some?
    requires var key := IdentitySuffix(id).value;
             var n := TallyFrom(cfg, Ran(cfg, before + [DeferPath(id, t, ms)]), wait, key);
             && n.binds == 0 && n.refills == 0 && (forall w :: w in wait ==> !IsOfPath(w, key))
             && Begins(cfg, Ran(cfg, before + [DeferPath(id, t, ms)] + wait), ev, key)
    ensures ev.Attempt? && ev.t >= t + ms
  {
    hide Tallied, TallyFrom, IsOfPath, Begins, IdentitySuffix;
    var key, d := IdentitySuffix(id).value, DeferPath(id, t, ms);
    assert Earlier(before + [d]) == before;
    assert Ran(cfg, before + [d]) == After(cfg, Ran(cfg, before), d);
    RunGoesOn(cfg, before + [d], wait);
    PathStretch(cfg, Ran(cfg, before + [d]), wait, key);
    BeginsOnTime(cfg, Ran(cfg, before + [d] + wait), ev, key);
  }
}
