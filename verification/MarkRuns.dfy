/** Runs of the dead-peer mark table: how long a failed identity waits, who leaves a full table, and what a policy mark keeps. */
module MarkRuns {

  import opened Counting
  import opened DeadPeers
  import opened KeySpace
  import opened Options

  // ---- one mark through a run ----

  predicate IsFailOf(op: Op, id: Id) {
    op.Fail? && op.id == id
  }

  function FailsAmong(ops: seq<Op>, id: Id, i: nat, j: nat): nat
    requires i <= j <= |ops|
  {
    if i == j then 0 else FailsAmong(ops, id, i, j - 1) + if IsFailOf(ops[j - 1], id) then 1 else 0
  }

  /** The identity came to be marked as a loss by operation `i`, and has kept that mark up to state `j`. */
  ghost predicate MarkedSince(states: seq<State>, id: Id, i: nat, j: nat)
    requires i < j < |states|
  {
    && id !in states[i].marks
    && forall k :: i < k <= j ==> id in states[k].marks && states[k].marks[id].kind == Loss
  }

  lemma WrittenMark(cfg: Config, s: State, id: Id, rec: Mark, t: State)
    requires Wrote(cfg, s, id, rec, t) && id !in s.marks
    ensures s.stamps <= t.stamps
    ensures id in t.marks ==> t.marks[id] == rec && t.stamps == s.stamps + 1
  {
    hide NoneWaiting, OldestWaiting;
  }

  lemma NewIsOwn(cfg: Config, s: State, op: Op, now: int, t: State, id: Id)
    requires ConfigOk(cfg) && Next(cfg, s, op, now, t) && id !in s.marks && id in t.marks
    ensures op.id == id
  {
    hide Next, Moved, Fresh;
    NextFrame(cfg, s, op, now, t);
  }

  lemma NewIsWritten(cfg: Config, s: State, op: Op, now: int, t: State)
    requires Next(cfg, s, op, now, t) && op.id !in s.marks && op.id in t.marks && t.marks[op.id].kind == Loss
    ensures op.Fail? || op.Add?
  {
    hide FailNext, AddNext;
  }

  lemma FirstMark(cfg: Config, s: State, op: Op, now: int, t: State, id: Id)
    requires ConfigOk(cfg) && Next(cfg, s, op, now, t) && id !in s.marks && id in t.marks && t.marks[id].kind == Loss
    ensures (op.Fail? || op.Add?) && op.id == id && !t.marks[id].token
    ensures t.stamps == s.stamps + 1 && t.marks[id].stamp == t.stamps
    ensures op.Fail? ==> var m := t.marks[id];
                         m.attempts == 1 && m.dueAt == Schedule(cfg, now, 1) && m.cause == op.cause && m.at == op.at
    ensures op.Add? ==> t.marks[id].attempts == 0 && t.marks[id].dueAt == now + cfg.B
  {
    hide Schedule, Wrote;
    NewIsOwn(cfg, s, op, now, t, id);
    NewIsWritten(cfg, s, op, now, t);
    if op.Fail? {
      WrittenMark(cfg, s, id, NewLoss(op.cause, op.at, 1, Schedule(cfg, now, 1), s.stamps + 1), t);
    } else {
      WrittenMark(cfg, s, id, NewLoss("unknown", op.at, 0, now + cfg.B, s.stamps + 1), t);
    }
  }

  lemma NextMark(cfg: Config, s: State, op: Op, now: int, t: State, id: Id)
    requires ConfigOk(cfg) && Next(cfg, s, op, now, t)
    requires id in s.marks && s.marks[id].kind == Loss && id in t.marks && t.marks[id].kind == Loss
    ensures t.marks[id] == if op.id == id then Moved(cfg, s.marks[id], op, now) else s.marks[id]
  {
    hide Next, Moved;
    NextFrame(cfg, s, op, now, t);
  }

  lemma StampsGrow(cfg: Config, s: State, op: Op, now: int, t: State)
    requires Next(cfg, s, op, now, t)
    ensures s.stamps <= t.stamps
  {
    hide Schedule, Wrote, Failed, Consumed, Evaluated, IssuedMark;
    match op
    case Fail(x, cause, at) =>
      if x !in s.marks {
        WrittenMark(cfg, s, x, NewLoss(cause, at, 1, Schedule(cfg, now, 1), s.stamps + 1), t);
      }
    case Add(x, at) =>
      if x !in s.marks {
        WrittenMark(cfg, s, x, NewLoss("unknown", at, 0, now + cfg.B, s.stamps + 1), t);
      }
    case _ =>
  }

  /** The attempts on record are the failures since the mark was made, up to the most that are counted. */
  lemma {:induction false} AttemptsAreFails(
    cfg: Config, states: seq<State>, ops: seq<Op>, clock: seq<int>, id: Id, i: nat, j: nat)
    requires ConfigOk(cfg) && Run(cfg, states, ops, clock) && i < j <= |ops| && MarkedSince(states, id, i, j)
    ensures var n := FailsAmong(ops, id, i, j);
            states[j].marks[id].attempts == if n < cfg.aMax then n else cfg.aMax
    decreases j
  {
    hide Next;
    assert Moves(cfg, states, ops, clock, j - 1);
    if j == i + 1 {
      FirstMark(cfg, states[i], ops[i], clock[i], states[j], id);
      assert FailsAmong(ops, id, i, i) == 0;
    } else {
      hide Schedule;
      AttemptsAreFails(cfg, states, ops, clock, id, i, j - 1);
      NextMark(cfg, states[j - 1], ops[j - 1], clock[j - 1], states[j], id);
    }
  }

  // ---- how long a failed identity waits ----

  /** The wait after `n` failures: B for a mark without one, B * factor^(n - 1) below the budget, a refill window once it is spent. */
  function WaitAfter(cfg: Config, n: nat): int {
    if n >= cfg.aMax then cfg.rRefill else if n == 0 then cfg.B else cfg.B * Pow(cfg.factor, n - 1)
  }

  /** From operation `f` on, which made the mark or failed last, nothing before `j` failed or was charged. */
  ghost predicate Untouched(states: seq<State>, ops: seq<Op>, clock: seq<int>, id: Id, i: nat, f: nat, j: nat)
    requires |states| == |ops| + 1 && |clock| == |ops| && j <= |ops|
  {
    && i <= f < j && (f == i || IsFailOf(ops[f], id))
    && forall k :: f < k < j ==> !IsFailOf(ops[k], id) && !Charged(states, ops, clock, id, k)
  }

  lemma {:induction false} DueSinceFailure(
    cfg: Config, states: seq<State>, ops: seq<Op>, clock: seq<int>, id: Id, i: nat, f: nat, j: nat)
    requires ConfigOk(cfg) && Run(cfg, states, ops, clock) && i < j <= |ops| && MarkedSince(states, id, i, j)
    requires Untouched(states, ops, clock, id, i, f, j)
    ensures var m := states[j].marks[id];
            && m.dueAt == clock[f] + WaitAfter(cfg, FailsAmong(ops, id, i, j))
            && (ops[f].Fail? ==> m.cause == ops[f].cause && m.at == ops[f].at)
    decreases j
  {
    hide Next;
    assert Moves(cfg, states, ops, clock, j - 1);
    AttemptsAreFails(cfg, states, ops, clock, id, i, j);
    if f == j - 1 {
      assert FailsAmong(ops, id, i, i) == 0;
      if f == i {
        FirstMark(cfg, states[i], ops[i], clock[i], states[j], id);
      } else {
        AttemptsAreFails(cfg, states, ops, clock, id, i, f);
        NextMark(cfg, states[f], ops[f], clock[f], states[j], id);
      }
    } else {
      hide Pow, WaitAfter;
      DueSinceFailure(cfg, states, ops, clock, id, i, f, j - 1);
      assert !IsFailOf(ops[j - 1], id) && !Charged(states, ops, clock, id, j - 1);
      NextMark(cfg, states[j - 1], ops[j - 1], clock[j - 1], states[j], id);
    }
  }

  /**
   * The backoff. When an identity has failed n times since it was marked, last at operation f, and no attempt has been
   * charged since, the next attempt at it goes on exactly from B * factor^(n - 1) after that failure, and once the
   * budget is spent exactly from a refill window after it. The mark says what that failure said.
   */
  lemma RetryExactlyWhenDue(
    cfg: Config, states: seq<State>, ops: seq<Op>, clock: seq<int>, id: Id, i: nat, f: nat, j: nat)
    requires ConfigOk(cfg) && Run(cfg, states, ops, clock) && i < j < |ops| && MarkedSince(states, id, i, j)
    requires Untouched(states, ops, clock, id, i, f, j) && (ops[j] == Evaluate(id) || ops[j] == Issue(id))
    ensures var n := FailsAmong(ops, id, i, j);
            Passed(states, ops, clock, id, j) <==> clock[j] - clock[f] >= WaitAfter(cfg, n)
    ensures ops[f].Fail? ==> states[j].marks[id].cause == ops[f].cause && states[j].marks[id].at == ops[f].at
  {
    hide Next, WaitAfter;
    DueSinceFailure(cfg, states, ops, clock, id, i, f, j);
  }

  const DEFAULTS: Overrides := Overrides(None, None, None, None, None, None, None)

  /** The defaults wait 30, 60 and 120 seconds, and from the fourth failure on a minute for each attempt. */
  lemma DefaultWaits(n: nat)
    ensures WaitAfter(ConfigOf(DEFAULTS), n) ==
            if n <= 1 then 30000 else if n == 2 then 60000 else if n == 3 then 120000 else 60000
    ensures var cfg := ConfigOf(DEFAULTS); cfg.mMarks == 256 && cfg.mHyst == 32 && cfg.mPolicy == 1024
  {
    assert Pow(2, 2) == 4;
  }

  /** An override is taken as it is, down to the least value of its option. */
  lemma OverridesAreTaken(o: Overrides)
    ensures var cfg := ConfigOf(o);
            && Takes(o.B, cfg.B, 0) && Takes(o.factor, cfg.factor, 1) && Takes(o.aMax, cfg.aMax, 1)
            && Takes(o.rRefill, cfg.rRefill, 0) && Takes(o.mMarks, cfg.mMarks, 1) && Takes(o.mHyst, cfg.mHyst, 0)
            && Takes(o.mPolicy, cfg.mPolicy, 1)
  {
  }

  predicate Takes(given: Option<int>, taken: int, least: int) {
    given.Some? ==> (taken == given.value && taken >= least) || given.value < least == taken
  }

  // ---- the refill token ----

  /** Operation `f` made the mark, failed or was charged, and nothing between it and state `j` did. */
  ghost predicate SpentAt(states: seq<State>, ops: seq<Op>, clock: seq<int>, id: Id, i: nat, f: nat, j: nat)
    requires |states| == |ops| + 1 && |clock| == |ops| && j <= |ops|
  {
    && i <= f < j && (f == i || IsFailOf(ops[f], id) || Charged(states, ops, clock, id, f))
    && forall k :: f < k < j ==> !IsFailOf(ops[k], id) && !Charged(states, ops, clock, id, k)
  }

  /** An evaluation that passed and was not charged at once. */
  ghost predicate Granted(states: seq<State>, ops: seq<Op>, clock: seq<int>, id: Id, k: nat)
    requires k < |ops| == |clock| && |states| == |ops| + 1
  {
    ops[k] == Evaluate(id) && Passed(states, ops, clock, id, k)
  }

  /** The token of an exhausted mark is a refill granted since the last failure or charge and not yet spent; no other mark has one. */
  lemma {:induction false} TokenIsUnspentRefill(
    cfg: Config, states: seq<State>, ops: seq<Op>, clock: seq<int>, id: Id, i: nat, f: nat, j: nat)
    requires ConfigOk(cfg) && Run(cfg, states, ops, clock) && i < j <= |ops| && MarkedSince(states, id, i, j)
    requires SpentAt(states, ops, clock, id, i, f, j)
    ensures states[j].marks[id].token <==>
            FailsAmong(ops, id, i, j) >= cfg.aMax && exists k :: f < k < j && Granted(states, ops, clock, id, k)
    decreases j
  {
    hide Next, Schedule;
    assert Moves(cfg, states, ops, clock, j - 1);
    AttemptsAreFails(cfg, states, ops, clock, id, i, j);
    if f == j - 1 {
      if f == i {
        FirstMark(cfg, states[i], ops[i], clock[i], states[j], id);
      } else {
        NoTokenUnexhausted(cfg, states, ops, clock, id, i, f);
        NextMark(cfg, states[f], ops[f], clock[f], states[j], id);
      }
    } else {
      TokenIsUnspentRefill(cfg, states, ops, clock, id, i, f, j - 1);
      AttemptsAreFails(cfg, states, ops, clock, id, i, j - 1);
      assert !IsFailOf(ops[j - 1], id) && !Charged(states, ops, clock, id, j - 1);
      NextMark(cfg, states[j - 1], ops[j - 1], clock[j - 1], states[j], id);
      GrantedNext(states, ops, clock, id, f, j);
    }
  }

  lemma GrantedNext(states: seq<State>, ops: seq<Op>, clock: seq<int>, id: Id, f: nat, j: nat)
    requires f + 1 < j <= |ops| == |clock| && |states| == |ops| + 1
    ensures (exists k :: f < k < j && Granted(states, ops, clock, id, k)) <==>
            (exists k :: f < k < j - 1 && Granted(states, ops, clock, id, k)) || Granted(states, ops, clock, id, j - 1)
  {
    hide Granted;
  }

  /** Only an exhausted mark has a token. */
  lemma {:induction false} NoTokenUnexhausted(
    cfg: Config, states: seq<State>, ops: seq<Op>, clock: seq<int>, id: Id, i: nat, j: nat)
    requires ConfigOk(cfg) && Run(cfg, states, ops, clock) && i < j <= |ops| && MarkedSince(states, id, i, j)
    ensures states[j].marks[id].token ==> states[j].marks[id].attempts >= cfg.aMax
    decreases j
  {
    hide Next, Schedule;
    assert Moves(cfg, states, ops, clock, j - 1);
    if j == i + 1 {
      FirstMark(cfg, states[i], ops[i], clock[i], states[j], id);
    } else {
      NoTokenUnexhausted(cfg, states, ops, clock, id, i, j - 1);
      NextMark(cfg, states[j - 1], ops[j - 1], clock[j - 1], states[j], id);
    }
  }

  /** The mark a full table gives up has spent its budget, and no refill granted to it since its last failure or charge is unspent. */
  lemma EvictedHasNoRefill(
    cfg: Config, states: seq<State>, ops: seq<Op>, clock: seq<int>, v: Id, i: nat, f: nat, j: nat)
    requires ConfigOk(cfg) && Run(cfg, states, ops, clock) && i < j < |ops| && MarkedSince(states, v, i, j)
    requires v !in states[j + 1].marks && ops[j] != Delete(v) && SpentAt(states, ops, clock, v, i, f, j)
    ensures FailsAmong(ops, v, i, j) >= cfg.aMax
    ensures forall k :: f < k < j ==> !Granted(states, ops, clock, v, k)
  {
    hide Next, Granted, SpentAt;
    RunSound(cfg, states, ops, clock, j);
    assert Moves(cfg, states, ops, clock, j);
    OnlyOldestWaitingEvicted(cfg, states[j], ops[j], clock[j], states[j + 1], v);
    AttemptsAreFails(cfg, states, ops, clock, v, i, j);
    TokenIsUnspentRefill(cfg, states, ops, clock, v, i, f, j);
  }

  // ---- who leaves a full table ----

  lemma {:induction false} StampsOnlyGrow(
    cfg: Config, states: seq<State>, ops: seq<Op>, clock: seq<int>, i: nat, j: nat)
    requires Run(cfg, states, ops, clock) && i <= j <= |ops|
    ensures states[i].stamps <= states[j].stamps
    decreases j
  {
    hide Next;
    if i < j {
      StampsOnlyGrow(cfg, states, ops, clock, i, j - 1);
      assert Moves(cfg, states, ops, clock, j - 1);
      StampsGrow(cfg, states[j - 1], ops[j - 1], clock[j - 1], states[j]);
    }
  }

  /** A loss mark keeps the stamp of the operation that made it. */
  lemma {:induction false} StampSinceMarked(
    cfg: Config, states: seq<State>, ops: seq<Op>, clock: seq<int>, id: Id, i: nat, j: nat)
    requires ConfigOk(cfg) && Run(cfg, states, ops, clock) && i < j <= |ops| && MarkedSince(states, id, i, j)
    ensures states[j].marks[id].stamp == states[i + 1].stamps == states[i].stamps + 1
    decreases j
  {
    hide Next, Schedule;
    assert Moves(cfg, states, ops, clock, j - 1);
    if j == i + 1 {
      FirstMark(cfg, states[i], ops[i], clock[i], states[j], id);
    } else {
      StampSinceMarked(cfg, states, ops, clock, id, i, j - 1);
      NextMark(cfg, states[j - 1], ops[j - 1], clock[j - 1], states[j], id);
    }
  }

  /**
   * A full table gives up the mark that was made first: of two exhausted marks without a token, the one that leaves
   * for a new loss was made by the earlier operation, however often either has failed since.
   */
  lemma FirstMarkedLeaves(
    cfg: Config, states: seq<State>, ops: seq<Op>, clock: seq<int>, v: Id, i: nat, id: Id, k: nat, j: nat)
    requires ConfigOk(cfg) && Run(cfg, states, ops, clock) && i < j < |ops| && k < j && id != v
    requires MarkedSince(states, v, i, j) && v !in states[j + 1].marks && ops[j] != Delete(v)
    requires MarkedSince(states, id, k, j) && states[j].marks[id].attempts >= cfg.aMax && !states[j].marks[id].token
    ensures i < k && states[j].marks[v].attempts >= cfg.aMax && !states[j].marks[v].token
  {
    hide Next, StampsOk;
    RunSound(cfg, states, ops, clock, j);
    assert Moves(cfg, states, ops, clock, j);
    OnlyOldestWaitingEvicted(cfg, states[j], ops[j], clock[j], states[j + 1], v);
    StampSinceMarked(cfg, states, ops, clock, v, i, j);
    StampSinceMarked(cfg, states, ops, clock, id, k, j);
    if k <= i {
      MadeApart(cfg, states, ops, clock, v, i, id, k);
    }
  }

  /** Two marks are not made by one operation, and stamps tell which came first. */
  lemma MadeApart(cfg: Config, states: seq<State>, ops: seq<Op>, clock: seq<int>, v: Id, i: nat, id: Id, k: nat)
    requires ConfigOk(cfg) && Run(cfg, states, ops, clock) && k <= i < |ops| && v != id
    requires MarkedSince(states, v, i, i + 1) && MarkedSince(states, id, k, k + 1)
    ensures states[k + 1].stamps < states[i + 1].stamps
  {
    hide Next, Schedule;
    assert Moves(cfg, states, ops, clock, i) && Moves(cfg, states, ops, clock, k);
    FirstMark(cfg, states[i], ops[i], clock[i], states[i + 1], v);
    FirstMark(cfg, states[k], ops[k], clock[k], states[k + 1], id);
    StampsOnlyGrow(cfg, states, ops, clock, k + 1, i);
  }

  // ---- policy marks ----

  /** A policy mark stays until its own delete; only another policy mark of the same identity rewrites it. */
  lemma PolicyStays(cfg: Config, s: State, op: Op, now: int, t: State, id: Id)
    requires ConfigOk(cfg) && Sound(cfg, s) && Next(cfg, s, op, now, t)
    requires id in s.marks && s.marks[id].kind == Policy && op != Delete(id)
    ensures id in t.marks && t.marks[id].kind == Policy && !Due(t.marks[id], now)
    ensures if op.MarkPolicy? && op.id == id then t.marks[id].cause == op.cause && t.marks[id].at == op.at
            else t.marks[id] == s.marks[id]
  {
    hide Sound, Next, Moved, Fresh;
    if id !in t.marks {
      OnlyOldestWaitingEvicted(cfg, s, op, now, t, id);
    }
    NextFrame(cfg, s, op, now, t);
    if op.id == id {
      PolicyKeepsOwn(cfg, s, op, now, t);
    }
  }

  lemma PolicyKeepsOwn(cfg: Config, s: State, op: Op, now: int, t: State)
    requires Next(cfg, s, op, now, t) && op.id in s.marks && s.marks[op.id].kind == Policy && !op.Delete?
    ensures op.id in t.marks && t.marks[op.id].kind == Policy
    ensures if op.MarkPolicy? then t.marks[op.id].cause == op.cause && t.marks[op.id].at == op.at
            else t.marks[op.id] == s.marks[op.id]
  {
    hide Wrote, Schedule;
  }

  /** A policy mark is written for every identity while there is room, in the place of a loss mark if it had one, and for none at the bound. */
  lemma PolicyWrittenIff(cfg: Config, s: State, id: Id, cause: string, at: int, now: int, t: State)
    requires Sound(cfg, s) && Next(cfg, s, MarkPolicy(id, cause, at), now, t)
    requires !(id in s.marks && s.marks[id].kind == Policy)
    ensures |OfKind(s.marks, Policy)| < cfg.mPolicy <==> id in t.marks && t.marks[id].kind == Policy
    ensures |OfKind(s.marks, Policy)| < cfg.mPolicy ==>
              t.marks[id].cause == cause && t.marks[id].at == at && t.marks.Keys == s.marks.Keys + {id}
    ensures |OfKind(s.marks, Policy)| == cfg.mPolicy ==> t == s
  {
    hide StampsOk, OfKind;
  }
}
