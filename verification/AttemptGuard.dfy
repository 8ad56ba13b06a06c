/** The attempt guard: one live attempt an identity, counted failures, backoff, expiry and refill. */
module AttemptGuard {

  import opened Counting
  import opened Identity
  import opened Options

  datatype Config = Config(
    maxAttempts: nat, baseMs: nat, factor: nat, refillWindowMs: nat, inflightMaxMs: int, expiryRefill: bool)

  datatype Entry = Entry(
    attempts: nat, inflight: bool, k: nat, beganAt: int, nextAt: int,
    expired: bool, pathUntil: int, noPath: nat, inc: Option<string>)

  const BLANK: Entry := Entry(0, false, 0, 0, 0, false, 0, 0, None)

  const MAX_NO_PATH: nat := 30

  /** The guard's state: entries and last granted refills by key, and the token counter. */
  datatype State = State(entries: map<string, Entry>, lastRefill: map<string, int>, issued: nat)

  function Unused(): State {
    State(map[], map[], 0)
  }

  function Slot(g: State, key: string): Entry {
    if key in g.entries then g.entries[key] else BLANK
  }

  function With(g: State, key: string, e: Entry): State {
    g.(entries := g.entries[key := e])
  }

  function Dropped(g: State, key: string): State {
    g.(entries := g.entries - {key})
  }

  // ---- one entry ----

  predicate Allowed(cfg: Config, e: Entry, t: int) {
    && t >= e.pathUntil
    && (e.expired ==> cfg.expiryRefill)
    && !e.inflight && t >= e.nextAt
  }

  function Opened(cfg: Config, e: Entry, t: int, k: nat): Entry {
    e.(nextAt := if e.expired then t + cfg.refillWindowMs else e.nextAt, inflight := true, k := k, beganAt := t)
  }

  /** A counted failure: the next try backs off, or the entry expires. */
  function Failed(cfg: Config, e: Entry, t: int): Entry {
    var n := e.attempts + 1;
    var closed := e.(inflight := false, k := 0, inc := None, attempts := n);
    if n >= cfg.maxAttempts then closed.(expired := true, nextAt := t + cfg.refillWindowMs)
    else closed.(nextAt := t + cfg.baseMs * Pow(cfg.factor, n - 1))
  }

  predicate IsLive(e: Entry, k: Option<nat>) {
    e.inflight && (k.Some? ==> k.value == e.k)
  }

  /** A terminal event names the channel incarnation it came from; both sides must name one to differ. */
  predicate SameChannel(e: Entry, inc: Option<string>) {
    inc.Some? && e.inc.Some? ==> inc.value == e.inc.value
  }

  predicate Overdue(e: Entry, t: int, maxMs: int) {
    e.inflight && t - e.beganAt > maxMs
  }

  /** What a fresh record leaves of a live attempt's entry: the budget is new, the attempt goes on. */
  function Refreshed(e: Entry): Entry {
    e.(attempts := 0, expired := false, nextAt := 0, noPath := 0, pathUntil := 0)
  }

  // ---- events ----

  /** Everything a caller may do, in any order and with any arguments; `Attempt` asks `allow` and begins when allowed. */
  datatype Event =
    | Attempt(id: Given, t: int)
    | End(id: Given, bound: bool, t: int, k: Option<nat>, inc: Option<string>)
    | Attach(id: Given, token: nat, inc: Option<string>)
    | Release(id: Given, k: Option<nat>)
    | Sweep(t: int, maxMs: int)
    | Fresh(id: Given, t: int)
    | DeferPath(id: Given, t: int, ms: int)
    | Delivered(id: Given)

  predicate RefillDue(cfg: Config, g: State, key: string, t: int) {
    key in g.lastRefill ==> t - g.lastRefill[key] >= cfg.refillWindowMs
  }

  function AfterAllow(g: State, key: string): State {
    With(g, key, Slot(g, key))
  }

  function AfterBegin(cfg: Config, g: State, key: string, t: int): State {
    With(g, key, Opened(cfg, Slot(g, key), t, g.issued + 1)).(issued := g.issued + 1)
  }

  predicate EndActs(g: State, key: string, k: Option<nat>, inc: Option<string>) {
    IsLive(Slot(g, key), k) && SameChannel(Slot(g, key), inc)
  }

  function AfterEnd(cfg: Config, g: State, key: string, bound: bool, t: int, k: Option<nat>, inc: Option<string>): State {
    if !EndActs(g, key, k, inc) then g
    else if bound then Dropped(g, key)
    else With(g, key, Failed(cfg, Slot(g, key), t))
  }

  function AfterAttach(g: State, key: string, k: nat, inc: Option<string>): State {
    if !IsLive(Slot(g, key), Some(k)) then g
    else With(g, key, Slot(g, key).(inc := if inc == Some("") then None else inc))
  }

  function AfterRelease(g: State, key: string, k: Option<nat>): State {
    var e := Slot(g, key);
    if !IsLive(e, k) then g
    else if e.attempts == 0 && !e.expired && e.noPath == 0 then Dropped(g, key)
    else With(g, key, e.(inflight := false, k := 0))
  }

  function AfterSweep(cfg: Config, g: State, t: int, maxMs: int): State {
    g.(entries := map key | key in g.entries ::
      Swept(cfg, g.entries[key], t, maxMs))
  }

  function Swept(cfg: Config, e: Entry, t: int, maxMs: int): Entry {
    if Overdue(e, t, maxMs) then Failed(cfg, e, t) else e
  }

  function AfterFresh(cfg: Config, g: State, key: string, t: int): State {
    if !RefillDue(cfg, g, key, t) then g
    else
      var paced := g.(lastRefill := g.lastRefill[key := t]);
      if Slot(g, key).inflight then With(paced, key, Refreshed(Slot(g, key))) else Dropped(paced, key)
  }

  function AfterDefer(g: State, key: string, t: int, ms: int): State {
    var e := Slot(g, key);
    With(g, key, e.(noPath := if e.noPath < MAX_NO_PATH then e.noPath + 1 else MAX_NO_PATH, pathUntil := t + ms))
  }

  function AfterDelivered(g: State, key: string): State {
    if key !in g.entries then g
    else
      var e := g.entries[key];
      if e.attempts == 0 && !e.expired && !e.inflight then Dropped(g, key)
      else With(g, key, e.(noPath := 0, pathUntil := 0))
  }

  /** The key an event is about; a sweep is about every key. */
  function KeyOf(ev: Event): Option<string> {
    if ev.Sweep? then None else IdentitySuffix(ev.id)
  }

  function After(cfg: Config, g: State, ev: Event): State {
    if ev.Sweep? then AfterSweep(cfg, g, ev.t, ev.maxMs)
    else
      match KeyOf(ev)
      case None => g
      case Some(key) =>
        match ev
        case Attempt(_, t) =>
          if Allowed(cfg, Slot(g, key), t) then AfterBegin(cfg, AfterAllow(g, key), key, t) else AfterAllow(g, key)
        case End(_, bound, t, k, inc) => AfterEnd(cfg, g, key, bound, t, k, inc)
        case Attach(_, k, inc) => AfterAttach(g, key, k, inc)
        case Release(_, k) => AfterRelease(g, key, k)
        case Fresh(_, t) => AfterFresh(cfg, g, key, t)
        case DeferPath(_, t, ms) => AfterDefer(g, key, t, ms)
        case Delivered(_) => AfterDelivered(g, key)
        case Sweep(_, _) => g
  }

  // ---- the guard ----

  class Guard {
    const cfg: Config
    var state: map<string, Entry>
    var lastRefillAt: map<string, int>
    var issued: nat
    var refills: nat
    var coalesced: nat
    var ignoredEnds: nat

    ghost function Now(): State
      reads this
    {
      State(state, lastRefillAt, issued)
    }

    constructor (cfg: Config)
      ensures Now() == Unused() && this.cfg == cfg && refills == coalesced == ignoredEnds == 0
    {
      this.cfg := cfg;
      state, lastRefillAt, issued := map[], map[], 0;
      refills, coalesced, ignoredEnds := 0, 0, 0;
    }

    /** `_s`: the entry of a key, made when missing. */
    method EntryOf(key: string) returns (e: Entry)
      modifies this`state
      ensures Now() == AfterAllow(old(Now()), key) && e == Slot(old(Now()), key)
    {
      if key !in state {
        state := state[key := BLANK];
      }
      e := state[key];
      assert state == old(state)[key := e];
    }

    method Allow(id: Given, t: int) returns (ok: bool)
      modifies this`state
      ensures var key := IdentitySuffix(id);
              if key.None? then ok && Now() == old(Now())
              else Now() == AfterAllow(old(Now()), key.value) &&
                   (ok <==> Allowed(cfg, Slot(old(Now()), key.value), t))
    {
      var key := IdentitySuffix(id);
      if key.None? {
        return true;
      }
      var s := EntryOf(key.value);
      if t < s.pathUntil {
        return false;
      }
      if s.expired {
        return cfg.expiryRefill && !s.inflight && t >= s.nextAt;
      }
      return !s.inflight && t >= s.nextAt;
    }

    method Begin(id: Given, t: int) returns (k: nat)
      modifies this`state, this`issued
      ensures var key := IdentitySuffix(id);
              if key.None? then k == 0 && Now() == old(Now())
              else Now() == AfterBegin(cfg, old(Now()), key.value, t) && k == issued == old(issued) + 1
    {
      hide IdentitySuffix, Allowed, Failed, Refreshed;
      var key := IdentitySuffix(id);
      if key.None? {
        return 0;
      }
      var s := EntryOf(key.value);
      if s.expired {
        s := s.(nextAt := t + cfg.refillWindowMs);
      }
      issued := issued + 1;
      state := state[key.value := s.(inflight := true, k := issued, beganAt := t)];
      return issued;
    }

    /** A dial site's pair: it begins only what was allowed. */
    method AllowThenBegin(id: Given, t: int) returns (k: nat)
      modifies this`state, this`issued
      ensures Now() == After(cfg, old(Now()), Attempt(id, t))
      ensures var key := IdentitySuffix(id);
              k == if key.Some? && Allowed(cfg, Slot(old(Now()), key.value), t) then old(issued) + 1 else 0
    {
      var ok := Allow(id, t);
      k := 0;
      if ok {
        k := Begin(id, t);
      }
    }

    method EndKey(key: string, bound: bool, t: int, k: Option<nat>, inc: Option<string>) returns (acted: bool)
      modifies this`state, this`ignoredEnds
      ensures Now() == AfterEnd(cfg, old(Now()), key, bound, t, k, inc)
      ensures acted <==> EndActs(old(Now()), key, k, inc)
      ensures ignoredEnds == old(ignoredEnds) + if acted then 0 else 1
    {
      if key !in state || !state[key].inflight || (k.Some? && k.value != state[key].k) {
        ignoredEnds := ignoredEnds + 1;
        return false;
      }
      var s := state[key];
      if inc.Some? && s.inc.Some? && inc.value != s.inc.value {
        ignoredEnds := ignoredEnds + 1;
        return false;
      }
      s := s.(inflight := false, k := 0, inc := None);
      if bound {
        state := state - {key};
        return true;
      }
      s := s.(attempts := s.attempts + 1);
      if s.attempts >= cfg.maxAttempts {
        state := state[key := s.(expired := true, nextAt := t + cfg.refillWindowMs)];
      } else {
        state := state[key := s.(nextAt := t + cfg.baseMs * Pow(cfg.factor, s.attempts - 1))];
      }
      return true;
    }

    method End(id: Given, bound: bool, t: int, k: Option<nat>, inc: Option<string>) returns (acted: bool)
      modifies this`state, this`ignoredEnds
      ensures Now() == After(cfg, old(Now()), Event.End(id, bound, t, k, inc))
      ensures acted <==> IdentitySuffix(id).Some? && EndActs(old(Now()), IdentitySuffix(id).value, k, inc)
      ensures ignoredEnds == old(ignoredEnds) + if acted || IdentitySuffix(id).None? then 0 else 1
    {
      var key := IdentitySuffix(id);
      if key.None? {
        return false;
      }
      acted := EndKey(key.value, bound, t, k, inc);
    }

    method Attach(id: Given, k: nat, inc: Option<string>) returns (acted: bool)
      modifies this`state
      ensures Now() == After(cfg, old(Now()), Event.Attach(id, k, inc))
      ensures acted <==>
                var key := IdentitySuffix(id);
                key.Some? && var e := Slot(old(Now()), key.value); e.inflight && e.k == k
    {
      var key := IdentitySuffix(id);
      if key.None? || key.value !in state {
        return false;
      }
      var s := state[key.value];
      if !s.inflight || s.k != k {
        return false;
      }
      state := state[key.value := s.(inc := if inc.Some? && |inc.value| > 0 then inc else None)];
      return true;
    }

    method Release(id: Given, k: Option<nat>) returns (acted: bool)
      modifies this`state, this`ignoredEnds
      ensures Now() == After(cfg, old(Now()), Event.Release(id, k))
      ensures acted <==> IdentitySuffix(id).Some? && IsLive(Slot(old(Now()), IdentitySuffix(id).value), k)
      ensures ignoredEnds == old(ignoredEnds) + if acted || IdentitySuffix(id).None? then 0 else 1
    {
      var key := IdentitySuffix(id);
      if key.None? {
        return false;
      }
      if key.value !in state || !state[key.value].inflight || (k.Some? && k.value != state[key.value].k) {
        ignoredEnds := ignoredEnds + 1;
        return false;
      }
      var s := state[key.value].(inflight := false, k := 0);
      if s.attempts == 0 && !s.expired && s.noPath == 0 {
        state := state - {key.value};
      } else {
        state := state[key.value := s];
      }
      return true;
    }

    /** The fail-safe deadline: every attempt in flight longer than `maxMs` ends as a failure. */
    method Sweep(t: int, maxMs: int) returns (n: nat)
      modifies this`state, this`ignoredEnds
      ensures Now() == After(cfg, old(Now()), Event.Sweep(t, maxMs))
      ensures n == |OverdueAmong(old(state), old(state).Keys, t, maxMs)| && ignoredEnds == old(ignoredEnds)
    {
      hide AfterEnd, HalfSwept, AfterSweep;
      n := 0;
      var keys := state.Keys;
      ghost var done: set<string> := {};
      NoneSwept(cfg, Now(), t, maxMs);
      while keys != {}
        invariant keys == old(state).Keys - done && done <= old(state).Keys
        invariant lastRefillAt == old(lastRefillAt) && issued == old(issued) && ignoredEnds == old(ignoredEnds)
        invariant HalfSwept(cfg, old(Now()), t, maxMs, done, state, n)
        decreases |keys|
      {
        var key :| key in keys;
        keys := keys - {key};
        NextSwept(cfg, old(Now()), t, maxMs, done, state, n, key);
        if state[key].inflight && t - state[key].beganAt > maxMs {
          var acted := EndKey(key, false, t, Some(state[key].k), None);
          n := n + 1;
        }
        done := done + {key};
      }
      AllSwept(cfg, old(Now()), t, maxMs, done, state, n);
    }

    method OnFreshRecord(id: Given, t: int) returns (refilled: bool)
      modifies this`state, this`lastRefillAt, this`refills, this`coalesced
      ensures Now() == After(cfg, old(Now()), Fresh(id, t))
      ensures refilled <==> IdentitySuffix(id).Some? && RefillDue(cfg, old(Now()), IdentitySuffix(id).value, t)
      ensures refills == old(refills) + if refilled then 1 else 0
      ensures coalesced == old(coalesced) + if refilled || IdentitySuffix(id).None? then 0 else 1
    {
      var key := IdentitySuffix(id);
      if key.None? {
        return false;
      }
      if key.value in lastRefillAt && t - lastRefillAt[key.value] < cfg.refillWindowMs {
        coalesced := coalesced + 1;
        return false;
      }
      lastRefillAt := lastRefillAt[key.value := t];
      if key.value in state && state[key.value].inflight {
        var s := state[key.value];
        state := state[key.value := s.(attempts := 0, expired := false, nextAt := 0, noPath := 0, pathUntil := 0)];
      } else {
        state := state - {key.value};
      }
      refills := refills + 1;
      return true;
    }

    /** `deferPath`: the cooldown doubles with every confirmed non-delivery, up to a cap; `draw` is the jitter's random number. */
    method DeferPath(id: Given, t: int, baseMs: nat, maxMs: nat, draw: Option<real>) returns (ms: int)
      modifies this`state
      ensures IdentitySuffix(id).None? ==> ms == 0
      ensures IdentitySuffix(id).Some? ==>
                ms == Cooldown(baseMs, maxMs, Slot(Now(), IdentitySuffix(id).value).noPath, draw)
      ensures Now() == After(cfg, old(Now()), Event.DeferPath(id, t, ms))
    {
      var key := IdentitySuffix(id);
      if key.None? {
        return 0;
      }
      ms := Defer(key.value, t, baseMs, maxMs, draw);
    }

    method Defer(key: string, t: int, baseMs: nat, maxMs: nat, draw: Option<real>) returns (ms: int)
      modifies this`state
      ensures ms == Cooldown(baseMs, maxMs, Slot(Now(), key).noPath, draw)
      ensures Now() == AfterDefer(old(Now()), key, t, ms)
    {
      hide Cooldown, AfterAllow;
      var s := EntryOf(key);
      ghost var made := Now();
      s := s.(noPath := if s.noPath + 1 < MAX_NO_PATH then s.noPath + 1 else MAX_NO_PATH);
      ms := Cooldown(baseMs, maxMs, s.noPath, draw);
      DeferredOnce(old(Now()), key, t, ms);
      state := state[key := s.(pathUntil := t + ms)];
      assert Now() == AfterDefer(made, key, t, ms);
    }

    method PathDelivered(id: Given) returns (acted: bool)
      modifies this`state
      ensures Now() == After(cfg, old(Now()), Delivered(id))
      ensures acted <==> IdentitySuffix(id).Some? && IdentitySuffix(id).value in old(state)
    {
      var key := IdentitySuffix(id);
      if key.None? || key.value !in state {
        return false;
      }
      var s := state[key.value].(noPath := 0, pathUntil := 0);
      if s.attempts == 0 && !s.expired && !s.inflight {
        state := state - {key.value};
      } else {
        state := state[key.value := s];
      }
      return true;
    }
  }

  /** A sweep half way: the entries of `done` are swept and counted, the others are as they were. */
  ghost predicate HalfSwept(
    cfg: Config, g: State, t: int, maxMs: int, done: set<string>, entries: map<string, Entry>, n: nat)
  {
    && entries.Keys == g.entries.Keys
    && (forall key :: key in entries ==>
          entries[key] == if key in done then Swept(cfg, g.entries[key], t, maxMs) else g.entries[key])
    && n == |OverdueAmong(g.entries, done, t, maxMs)|
  }

  lemma NoneSwept(cfg: Config, g: State, t: int, maxMs: int)
    ensures HalfSwept(cfg, g, t, maxMs, {}, g.entries, 0)
  {
    assert OverdueAmong(g.entries, {}, t, maxMs) == {};
  }

  /** One entry swept: an overdue attempt ended with its own token, or nothing. */
  lemma NextSwept(
    cfg: Config, g: State, t: int, maxMs: int, done: set<string>, entries: map<string, Entry>, n: nat, key: string)
    requires HalfSwept(cfg, g, t, maxMs, done, entries, n) && key in g.entries && key !in done
    ensures key in entries
    ensures var e := entries[key];
            var h := g.(entries := entries);
            if e.inflight && t - e.beganAt > maxMs
            then HalfSwept(cfg, g, t, maxMs, done + {key},
                           AfterEnd(cfg, h, key, false, t, Some(e.k), None).entries, n + 1)
                 && AfterEnd(cfg, h, key, false, t, Some(e.k), None) ==
                    h.(entries := AfterEnd(cfg, h, key, false, t, Some(e.k), None).entries)
            else HalfSwept(cfg, g, t, maxMs, done + {key}, entries, n)
  {
    hide Failed;
    OneMoreOverdue(g.entries, done, key, t, maxMs);
  }

  lemma AllSwept(cfg: Config, g: State, t: int, maxMs: int, done: set<string>, entries: map<string, Entry>, n: nat)
    requires HalfSwept(cfg, g, t, maxMs, done, entries, n) && done <= g.entries.Keys && g.entries.Keys - done == {}
    ensures AfterSweep(cfg, g, t, maxMs) == g.(entries := entries)
    ensures n == |OverdueAmong(g.entries, g.entries.Keys, t, maxMs)|
  {
    hide Swept;
    assert g.entries.Keys == (g.entries.Keys - done) + done == done;
  }

  function OverdueAmong(entries: map<string, Entry>, keys: set<string>, t: int, maxMs: int): set<string> {
    set key | key in keys && key in entries && Overdue(entries[key], t, maxMs)
  }

  lemma OneMoreOverdue(entries: map<string, Entry>, keys: set<string>, key: string, t: int, maxMs: int)
    requires key in entries && key !in keys
    ensures |OverdueAmong(entries, keys + {key}, t, maxMs)| ==
            |OverdueAmong(entries, keys, t, maxMs)| + if Overdue(entries[key], t, maxMs) then 1 else 0
  {
    assert OverdueAmong(entries, keys + {key}, t, maxMs) ==
           OverdueAmong(entries, keys, t, maxMs) + if Overdue(entries[key], t, maxMs) then {key} else {};
  }

  /** Making an entry and then rewriting it is writing it once. */
  lemma DeferredOnce(g: State, key: string, t: int, ms: int)
    ensures AfterDefer(AfterAllow(g, key), key, t, ms) == AfterDefer(g, key, t, ms)
    ensures Slot(AfterAllow(g, key), key) == Slot(g, key)
  {
  }

  // ---- the path cooldown ----

  function Capped(baseMs: nat, maxMs: nat, noPath: nat): nat {
    var n := if noPath == 0 then 0 else noPath - 1;
    PowOfNat(2, n);
    var ms := baseMs * Pow(2, n);
    if maxMs < ms then maxMs else ms
  }

  /** `Math.round(ms * (0.5 + draw))`. */
  function Jittered(ms: nat, draw: real): int {
    Rounded(Scaled(ms as real, draw))
  }

  function Rounded(x: real): int {
    (x + 0.5).Floor
  }

  function Scaled(x: real, draw: real): real {
    x * (0.5 + draw)
  }

  function Cooldown(baseMs: nat, maxMs: nat, noPath: nat, draw: Option<real>): int {
    var ms := Capped(baseMs, maxMs, noPath);
    if draw.None? then ms else Jittered(ms, draw.value)
  }

  lemma ScaledBounds(x: real, draw: real)
    requires x >= 0.0 && 0.0 <= draw < 1.0
    ensures draw <= 0.5 ==> Scaled(x, draw) <= x
    ensures x / 2.0 <= Scaled(x, draw) <= x + x / 2.0
  {
    NonNegativeProduct(x, draw);
    NonNegativeProduct(x, 1.0 - draw);
    if draw <= 0.5 {
      NonNegativeProduct(x, 0.5 - draw);
    }
  }

  lemma NonNegativeProduct(a: real, b: real)
    requires a >= 0.0 && b >= 0.0
    ensures a * b >= 0.0
  {
  }

  /** A draw that takes a cooldown half a millisecond short of one and a half times its base. */
  lemma LargeDraw(c: nat) returns (draw: real)
    requires c >= 1
    ensures 0.0 <= draw < 1.0
    ensures Scaled(c as real, draw) == 1.5 * c as real - 0.5
  {
    var x := c as real;
    draw := 1.0 - 0.5 / x;
    HalfOver(x);
    assert x * (0.5 + draw) == x * 1.5 - x * (0.5 / x);
  }

  lemma HalfOver(x: real)
    requires x >= 1.0
    ensures x * (0.5 / x) == 0.5 && 0.0 < 0.5 / x <= 0.5
  {
  }

  /** Without a draw the first cooldown is the base and each next one twice the last, none above the cap. */
  lemma CooldownDoubles(baseMs: nat, maxMs: nat, noPath: nat)
    requires noPath >= 1
    ensures Cooldown(baseMs, maxMs, 1, None) == if baseMs < maxMs then baseMs else maxMs
    ensures var next := 2 * Cooldown(baseMs, maxMs, noPath, None);
            Cooldown(baseMs, maxMs, noPath + 1, None) == if next < maxMs then next else maxMs
  {
    assert Pow(2, noPath) == 2 * Pow(2, noPath - 1);
    var p := Pow(2, noPath - 1);
    assert baseMs * (2 * p) == 2 * (baseMs * p);
  }

  /** A draw moves the cooldown by less than half of it either way, up to rounding, and the middle draw not at all. */
  lemma CooldownSpread(baseMs: nat, maxMs: nat, noPath: nat, draw: real)
    requires 0.0 <= draw < 1.0
    ensures var ms, drawn := Capped(baseMs, maxMs, noPath), Cooldown(baseMs, maxMs, noPath, Some(draw));
            && ms <= 2 * drawn <= 3 * ms + 1
            && (draw <= 0.5 ==> drawn <= ms) && (draw >= 0.5 ==> ms <= drawn)
  {
    var ms := Capped(baseMs, maxMs, noPath);
    ScaledBounds(ms as real, draw);
    if draw >= 0.5 {
      NonNegativeProduct(ms as real, draw - 0.5);
      assert Scaled(ms as real, draw) == ms as real + ms as real * (draw - 0.5);
    }
  }

  /** Every draw keeps a cooldown within its cap exactly when half as much again as the capped backoff still does. */
  lemma CooldownKeepsCapIff(baseMs: nat, maxMs: nat, noPath: nat)
    ensures (forall draw :: 0.0 <= draw < 1.0 ==> Cooldown(baseMs, maxMs, noPath, Some(draw)) <= maxMs)
            <==> 3 * Capped(baseMs, maxMs, noPath) <= 2 * maxMs + 1
  {
    hide Pow, Capped, Scaled;
    var c := Capped(baseMs, maxMs, noPath);
    if 3 * c <= 2 * maxMs + 1 {
      forall draw | 0.0 <= draw < 1.0 ensures Cooldown(baseMs, maxMs, noPath, Some(draw)) <= maxMs {
        BelowHalfMore(c, draw);
      }
    } else {
      var draw := LargeDraw(c);
      assert Cooldown(baseMs, maxMs, noPath, Some(draw)) > maxMs;
    }
  }

  lemma BelowHalfMore(c: nat, draw: real)
    requires 0.0 <= draw < 1.0
    ensures 2 * Jittered(c, draw) <= 3 * c
  {
    hide Scaled, Rounded;
    var x := c as real;
    if c > 0 {
      ScaledBelow(x, draw);
      RoundedBelow(Scaled(x, draw), c);
    } else {
      ScaledBounds(x, draw);
      RoundedZero();
    }
  }

  lemma ScaledBelow(x: real, draw: real)
    requires x > 0.0 && draw < 1.0
    ensures Scaled(x, draw) < 1.5 * x
  {
    PositiveProduct(x, 1.0 - draw);
    assert x * (0.5 + draw) == x * 1.5 - x * (1.0 - draw);
  }

  lemma RoundedBelow(y: real, c: nat)
    requires y < 1.5 * c as real
    ensures 2 * Rounded(y) <= 3 * c
  {
  }

  lemma RoundedZero()
    ensures Rounded(0.0) == 0
  {
  }

  lemma PositiveProduct(a: real, b: real)
    requires a > 0.0 && b > 0.0
    ensures a * b > 0.0
  {
  }

  lemma CooldownPassesCap()
    ensures Cooldown(30000, 600000, 6, Some(0.9)) == 840000
  {
    assert Pow(2, 5) == 32;
  }
}
