/** The dead-peer mark table: when a marked identity may be tried again, and which mark gives way when the table is full. */
module DeadPeers {

  import opened Counting
  import opened KeySpace
  import opened Options

  datatype Config = Config(B: nat, factor: nat, aMax: nat, rRefill: nat, mMarks: nat, mHyst: nat, mPolicy: nat)

  /** Overrides of the defaults; what is absent or not a number keeps its default. */
  datatype Overrides = Overrides(
    B: Option<int>, factor: Option<int>, aMax: Option<int>, rRefill: Option<int>,
    mMarks: Option<int>, mHyst: Option<int>, mPolicy: Option<int>)

  function Num(v: Option<int>, default_: nat, min: nat): (n: nat)
    ensures v.Some? ==> n >= min
  {
    if v.None? then default_ else if v.value < min then min else v.value
  }

  function ConfigOf(o: Overrides): (cfg: Config)
    ensures ConfigOk(cfg)
  {
    Config(Num(o.B, 30000, 0), Num(o.factor, 2, 1), Num(o.aMax, 4, 1), Num(o.rRefill, 60000, 0),
           Num(o.mMarks, 256, 1), Num(o.mHyst, 32, 0), Num(o.mPolicy, 1024, 1))
  }

  predicate ConfigOk(cfg: Config) {
    cfg.factor >= 1 && cfg.aMax >= 1 && cfg.mMarks >= 1 && cfg.mPolicy >= 1
  }

  datatype Kind = Loss | Policy

  /** A policy mark is never due; its `attempts`, `dueAt` and `token` are not read. */
  datatype Mark = Mark(kind: Kind, cause: string, at: int, attempts: nat, dueAt: int, token: bool, stamp: nat)

  datatype State = State(marks: map<Id, Mark>, latched: bool, policyCount: nat, stamps: nat)

  function Empty(): State {
    State(map[], false, 0, 0)
  }

  // ---- one mark ----

  function Schedule(cfg: Config, now: int, attempts: nat): int {
    if attempts >= cfg.aMax then now + cfg.rRefill
    else now + cfg.B * Pow(cfg.factor, if attempts == 0 then 0 else attempts - 1)
  }

  predicate Exhausted(cfg: Config, m: Mark) {
    m.kind == Loss && m.attempts >= cfg.aMax
  }

  predicate Waiting(cfg: Config, m: Mark) {
    Exhausted(cfg, m) && !m.token
  }

  function Failed(cfg: Config, m: Mark, now: int, cause: string, at: int): Mark {
    var n := if m.attempts + 1 < cfg.aMax then m.attempts + 1 else cfg.aMax;
    m.(attempts := n, cause := cause, at := at, token := false, dueAt := Schedule(cfg, now, n))
  }

  function Consumed(cfg: Config, m: Mark, now: int): Mark {
    if Exhausted(cfg, m) then m.(token := false, dueAt := now + cfg.rRefill) else m
  }

  predicate Due(m: Mark, now: int) {
    m.kind == Loss && now >= m.dueAt
  }

  /** Evaluating a due exhausted mark refills its token. */
  function Evaluated(cfg: Config, m: Mark, now: int): Mark {
    if Due(m, now) && Exhausted(cfg, m) then m.(token := true) else m
  }

  // ---- the table ----

  ghost function OfKind(marks: map<Id, Mark>, kind: Kind): set<Id> {
    set id | id in marks && marks[id].kind == kind
  }

  lemma KindsCount(marks: map<Id, Mark>)
    ensures |marks| == |OfKind(marks, Loss)| + |OfKind(marks, Policy)|
  {
    assert marks.Keys == OfKind(marks, Loss) + OfKind(marks, Policy);
    assert |marks| == |marks.Keys|;
  }

  function LossCount(s: State): int {
    |s.marks| - s.policyCount
  }

  predicate PolicyFull(cfg: Config, s: State) {
    s.policyCount >= cfg.mPolicy
  }

  function Latched(cfg: Config, s: State): State {
    if LossCount(s) >= cfg.mMarks then s.(latched := true)
    else if LossCount(s) < cfg.mMarks - cfg.mHyst then s.(latched := false)
    else s
  }

  /** The oldest exhausted-and-waiting loss mark. */
  ghost predicate OldestWaiting(cfg: Config, s: State, v: Id) {
    && v in s.marks && Waiting(cfg, s.marks[v])
    && forall id :: id in s.marks && Waiting(cfg, s.marks[id]) ==> s.marks[v].stamp <= s.marks[id].stamp
  }

  ghost predicate NoneWaiting(cfg: Config, s: State) {
    forall id :: id in s.marks ==> !Waiting(cfg, s.marks[id])
  }

  /** A new loss mark: written below the bound, in the place of the oldest waiting mark at it, or refused. */
  ghost predicate Wrote(cfg: Config, s: State, id: Id, rec: Mark, t: State) {
    if LossCount(s) < cfg.mMarks then t == WithNew(cfg, s, id, rec)
    else if NoneWaiting(cfg, s) then t == s
    else exists v :: OldestWaiting(cfg, s, v) && t == WithNew(cfg, s.(marks := s.marks - {v}), id, rec)
  }

  function WithNew(cfg: Config, s: State, id: Id, rec: Mark): State {
    Latched(cfg, s.(marks := s.marks[id := rec], stamps := s.stamps + 1))
  }

  datatype Op =
    | Fail(id: Id, cause: string, at: int)
    | Add(id: Id, at: int)
    | MarkPolicy(id: Id, cause: string, at: int)
    | Delete(id: Id)
    | Consume(id: Id)
    | Evaluate(id: Id)
    | Issue(id: Id)

  function NewLoss(cause: string, at: int, attempts: nat, dueAt: int, stamp: nat): Mark {
    Mark(Loss, cause, at, attempts, dueAt, false, stamp)
  }

  ghost predicate FailNext(cfg: Config, s: State, id: Id, cause: string, at: int, now: int, t: State) {
    if id !in s.marks then Wrote(cfg, s, id, NewLoss(cause, at, 1, Schedule(cfg, now, 1), s.stamps + 1), t)
    else if s.marks[id].kind == Policy then t == s
    else t == Put(s, id, Failed(cfg, s.marks[id], now, cause, at))
  }

  ghost predicate AddNext(cfg: Config, s: State, id: Id, at: int, now: int, t: State) {
    if id in s.marks then t == s
    else Wrote(cfg, s, id, NewLoss("unknown", at, 0, now + cfg.B, s.stamps + 1), t)
  }

  function AfterPolicy(cfg: Config, s: State, id: Id, cause: string, at: int): State {
    if id in s.marks && s.marks[id].kind == Policy then Put(s, id, s.marks[id].(cause := cause, at := at))
    else if PolicyFull(cfg, s) then s
    else Latched(cfg, Put(s, id, Mark(Policy, cause, at, 0, 0, false, s.stamps + 1)).(
                        policyCount := s.policyCount + 1, stamps := s.stamps + 1))
  }

  function Put(s: State, id: Id, m: Mark): State {
    s.(marks := s.marks[id := m])
  }

  function AfterConsume(cfg: Config, s: State, id: Id, now: int): State {
    if id in s.marks then Put(s, id, Consumed(cfg, s.marks[id], now)) else s
  }

  function AfterEvaluate(cfg: Config, s: State, id: Id, now: int): State {
    if id in s.marks then Put(s, id, Evaluated(cfg, s.marks[id], now)) else s
  }

  /** An attempt issued at once: evaluated, and charged when it passes. */
  function IssuedMark(cfg: Config, m: Mark, now: int): Mark {
    if Due(m, now) then Consumed(cfg, Evaluated(cfg, m, now), now) else m
  }

  function AfterIssue(cfg: Config, s: State, id: Id, now: int): State {
    if id in s.marks then Put(s, id, IssuedMark(cfg, s.marks[id], now)) else s
  }

  ghost predicate Next(cfg: Config, s: State, op: Op, now: int, t: State) {
    match op
    case Fail(id, cause, at) => FailNext(cfg, s, id, cause, at, now, t)
    case Add(id, at) => AddNext(cfg, s, id, at, now, t)
    case MarkPolicy(id, cause, at) => t == AfterPolicy(cfg, s, id, cause, at)
    case Delete(id) => t == Removed(cfg, s, id)
    case Consume(id) => t == AfterConsume(cfg, s, id, now)
    case Evaluate(id) => t == AfterEvaluate(cfg, s, id, now)
    case Issue(id) => t == AfterIssue(cfg, s, id, now)
  }

  function Removed(cfg: Config, s: State, id: Id): State {
    Latched(cfg, s.(marks := s.marks - {id},
                    policyCount := if id in s.marks && s.marks[id].kind == Policy && s.policyCount > 0
                                   then s.policyCount - 1 else s.policyCount))
  }

  /** What every reachable table satisfies. */
  ghost predicate Sound(cfg: Config, s: State) {
    && s.policyCount == |OfKind(s.marks, Policy)| <= cfg.mPolicy
    && |OfKind(s.marks, Loss)| <= cfg.mMarks
    && LatchOk(cfg, s)
    && StampsOk(s.marks, s.stamps)
  }

  ghost predicate StampsOk(marks: map<Id, Mark>, stamps: nat) {
    && (forall id :: id in marks ==> marks[id].stamp <= stamps)
    && (forall a, b :: a in marks && b in marks && a != b ==> marks[a].stamp != marks[b].stamp)
  }

  /** The latch is on at the bound and off below the hysteresis. */
  ghost predicate LatchOk(cfg: Config, s: State) {
    && (LossCount(s) >= cfg.mMarks ==> s.latched)
    && (LossCount(s) < cfg.mMarks - cfg.mHyst ==> !s.latched)
  }

  lemma CountsOf(s: State)
    requires s.policyCount == |OfKind(s.marks, Policy)|
    ensures LossCount(s) == |OfKind(s.marks, Loss)|
  {
    KindsCount(s.marks);
  }

  lemma AddedMark(marks: map<Id, Mark>, id: Id, m: Mark, kind: Kind)
    requires id !in marks
    ensures |OfKind(marks[id := m], kind)| == |OfKind(marks, kind)| + if m.kind == kind then 1 else 0
  {
    assert OfKind(marks[id := m], kind) == OfKind(marks, kind) + if m.kind == kind then {id} else {};
  }

  lemma RemovedMark(marks: map<Id, Mark>, id: Id, kind: Kind)
    requires id in marks
    ensures |OfKind(marks, kind)| == |OfKind(marks - {id}, kind)| + if marks[id].kind == kind then 1 else 0
  {
    AddedMark(marks - {id}, id, marks[id], kind);
    assert (marks - {id})[id := marks[id]] == marks;
  }

  lemma SameKinds(marks: map<Id, Mark>, id: Id, m: Mark, kind: Kind)
    requires id in marks && m.kind == marks[id].kind
    ensures OfKind(marks[id := m], kind) == OfKind(marks, kind)
  {
  }

  lemma StampsWith(marks: map<Id, Mark>, stamps: nat, id: Id, m: Mark)
    requires StampsOk(marks, stamps) && m.stamp == stamps + 1
    ensures StampsOk(marks[id := m], stamps + 1)
  {
  }

  lemma StampsWithout(marks: map<Id, Mark>, stamps: nat, id: Id)
    requires StampsOk(marks, stamps)
    ensures StampsOk(marks - {id}, stamps)
  {
  }

  /** Sound but for the latch, which the latching then settles. */
  lemma LatchedSound(cfg: Config, s: State)
    requires s.policyCount == |OfKind(s.marks, Policy)| <= cfg.mPolicy
    requires |OfKind(s.marks, Loss)| <= cfg.mMarks && StampsOk(s.marks, s.stamps)
    ensures Sound(cfg, Latched(cfg, s))
  {
    hide OfKind, StampsOk;
  }

  lemma NewMarkSound(cfg: Config, s: State, id: Id, rec: Mark)
    requires s.policyCount == |OfKind(s.marks, Policy)| <= cfg.mPolicy
    requires |OfKind(s.marks, Loss)| < cfg.mMarks && StampsOk(s.marks, s.stamps)
    requires id !in s.marks && rec.kind == Loss && rec.stamp == s.stamps + 1
    ensures Sound(cfg, WithNew(cfg, s, id, rec))
  {
    hide OfKind, StampsOk, Sound, Latched;
    AddedMark(s.marks, id, rec, Loss);
    AddedMark(s.marks, id, rec, Policy);
    StampsWith(s.marks, s.stamps, id, rec);
    LatchedSound(cfg, s.(marks := s.marks[id := rec], stamps := s.stamps + 1));
  }

  lemma WroteSound(cfg: Config, s: State, id: Id, rec: Mark, t: State)
    requires Sound(cfg, s) && id !in s.marks && rec.kind == Loss && rec.stamp == s.stamps + 1
    requires Wrote(cfg, s, id, rec, t)
    ensures Sound(cfg, t)
  {
    hide OfKind, StampsOk, WithNew, NoneWaiting, LatchOk;
    CountsOf(s);
    if LossCount(s) < cfg.mMarks {
      NewMarkSound(cfg, s, id, rec);
    } else if !NoneWaiting(cfg, s) {
      var v :| OldestWaiting(cfg, s, v) && t == WithNew(cfg, s.(marks := s.marks - {v}), id, rec);
      RemovedMark(s.marks, v, Loss);
      RemovedMark(s.marks, v, Policy);
      StampsWithout(s.marks, s.stamps, v);
      NewMarkSound(cfg, s.(marks := s.marks - {v}), id, rec);
    }
  }

  lemma PutSound(cfg: Config, s: State, id: Id, m: Mark)
    requires Sound(cfg, s) && id in s.marks
    requires m.kind == s.marks[id].kind && m.stamp == s.marks[id].stamp
    ensures Sound(cfg, Put(s, id, m))
  {
    SameKinds(s.marks, id, m, Loss);
    SameKinds(s.marks, id, m, Policy);
    CountsOf(s);
    CountsOf(Put(s, id, m));
  }

  lemma PolicySound(cfg: Config, s: State, id: Id, cause: string, at: int)
    requires Sound(cfg, s)
    ensures Sound(cfg, AfterPolicy(cfg, s, id, cause, at))
  {
    hide OfKind, StampsOk, LatchOk, Latched;
    if id in s.marks && s.marks[id].kind == Policy {
      PutSound(cfg, s, id, s.marks[id].(cause := cause, at := at));
    } else if !PolicyFull(cfg, s) {
      var rec := Mark(Policy, cause, at, 0, 0, false, s.stamps + 1);
      PolicyWritten(s.marks, id, rec);
      StampsWith(s.marks, s.stamps, id, rec);
      LatchedSound(cfg, Put(s, id, rec).(policyCount := s.policyCount + 1, stamps := s.stamps + 1));
    }
  }

  lemma PolicyWritten(marks: map<Id, Mark>, id: Id, rec: Mark)
    requires rec.kind == Policy && (id in marks ==> marks[id].kind == Loss)
    ensures |OfKind(marks[id := rec], Policy)| == |OfKind(marks, Policy)| + 1
    ensures |OfKind(marks[id := rec], Loss)| <= |OfKind(marks, Loss)|
  {
    hide OfKind;
    if id in marks {
      RemovedMark(marks, id, Loss);
      RemovedMark(marks, id, Policy);
      assert (marks - {id})[id := rec] == marks[id := rec];
      AddedMark(marks - {id}, id, rec, Loss);
      AddedMark(marks - {id}, id, rec, Policy);
    } else {
      AddedMark(marks, id, rec, Loss);
      AddedMark(marks, id, rec, Policy);
    }
  }

  lemma RemovedSound(cfg: Config, s: State, id: Id)
    requires Sound(cfg, s)
    ensures Sound(cfg, Removed(cfg, s, id))
  {
    hide OfKind, StampsOk, LatchOk, Latched;
    if id in s.marks {
      RemovedMark(s.marks, id, Loss);
      RemovedMark(s.marks, id, Policy);
    } else {
      assert s.marks - {id} == s.marks;
    }
    StampsWithout(s.marks, s.stamps, id);
    LatchedSound(cfg, s.(marks := s.marks - {id}, policyCount := |OfKind(s.marks - {id}, Policy)|));
  }

  /** Every operation keeps the table sound: both bounds, an exact policy count, a true latch, distinct stamps. */
  lemma NextKeepsSound(cfg: Config, s: State, op: Op, now: int, t: State)
    requires Sound(cfg, s) && Next(cfg, s, op, now, t)
    ensures Sound(cfg, t)
  {
    hide Sound, Wrote, Removed, Schedule, AfterPolicy, Put;
    match op
    case Fail(id, cause, at) =>
      if id !in s.marks {
        WroteSound(cfg, s, id, NewLoss(cause, at, 1, Schedule(cfg, now, 1), s.stamps + 1), t);
      } else if s.marks[id].kind == Loss {
        PutSound(cfg, s, id, Failed(cfg, s.marks[id], now, cause, at));
      }
    case Add(id, at) =>
      if id !in s.marks {
        WroteSound(cfg, s, id, NewLoss("unknown", at, 0, now + cfg.B, s.stamps + 1), t);
      }
    case MarkPolicy(id, cause, at) => PolicySound(cfg, s, id, cause, at);
    case Delete(id) => RemovedSound(cfg, s, id);
    case Consume(id) => if id in s.marks { PutSound(cfg, s, id, Consumed(cfg, s.marks[id], now)); }
    case Evaluate(id) => if id in s.marks { PutSound(cfg, s, id, Evaluated(cfg, s.marks[id], now)); }
    case Issue(id) => if id in s.marks { PutSound(cfg, s, id, IssuedMark(cfg, s.marks[id], now)); }
  }

  // ---- frames ----

  lemma WroteFrame(cfg: Config, s: State, id: Id, rec: Mark, t: State)
    requires Wrote(cfg, s, id, rec, t) && id !in s.marks
    ensures forall other :: other in t.marks ==>
              if other == id then t.marks[other] == rec else other in s.marks && t.marks[other] == s.marks[other]
  {
    hide NoneWaiting;
  }

  /** The loss mark an operation on its own id leaves. */
  function Moved(cfg: Config, m: Mark, op: Op, now: int): Mark {
    match op
    case Fail(_, cause, at) => Failed(cfg, m, now, cause, at)
    case Consume(_) => Consumed(cfg, m, now)
    case Evaluate(_) => Evaluated(cfg, m, now)
    case Issue(_) => IssuedMark(cfg, m, now)
    case _ => m
  }

  lemma MovedKind(cfg: Config, m: Mark, op: Op, now: int)
    ensures Moved(cfg, m, op, now).kind == m.kind
  {
  }

  predicate Fresh(cfg: Config, m: Mark, now: int) {
    m.attempts < cfg.aMax || m.dueAt <= now + cfg.rRefill
  }

  /** Marks of other ids stay or go; a loss mark that stays has moved as its operation says; a new one starts fresh. */
  ghost predicate Framed(cfg: Config, s: State, op: Op, now: int, t: State) {
    && (forall other :: other != op.id && other in t.marks ==> other in s.marks && t.marks[other] == s.marks[other])
    && (op.id in t.marks && t.marks[op.id].kind == Loss ==>
          if op.id in s.marks then s.marks[op.id].kind == Loss && t.marks[op.id] == Moved(cfg, s.marks[op.id], op, now)
          else Fresh(cfg, t.marks[op.id], now))
  }

  lemma PutFrame(cfg: Config, s: State, op: Op, now: int)
    requires op.id in s.marks
    ensures Framed(cfg, s, op, now, Put(s, op.id, Moved(cfg, s.marks[op.id], op, now)))
  {
    hide Moved;
    MovedKind(cfg, s.marks[op.id], op, now);
  }

  lemma WriteFrame(cfg: Config, s: State, op: Op, now: int, rec: Mark, t: State)
    requires op.id !in s.marks && Wrote(cfg, s, op.id, rec, t) && Fresh(cfg, rec, now)
    ensures Framed(cfg, s, op, now, t)
  {
    hide Wrote, Fresh, Moved;
    WroteFrame(cfg, s, op.id, rec, t);
  }

  lemma FailFrame(cfg: Config, s: State, op: Op, now: int, t: State)
    requires op.Fail? && FailNext(cfg, s, op.id, op.cause, op.at, now, t)
    ensures Framed(cfg, s, op, now, t)
  {
    hide Wrote, Pow, Failed, Framed, Put;
    if op.id !in s.marks {
      WriteFrame(cfg, s, op, now, NewLoss(op.cause, op.at, 1, Schedule(cfg, now, 1), s.stamps + 1), t);
    } else if s.marks[op.id].kind == Policy {
      UnchangedFrame(cfg, s, op, now);
    } else {
      PutFrame(cfg, s, op, now);
    }
  }

  lemma AddFrame(cfg: Config, s: State, op: Op, now: int, t: State)
    requires op.Add? && AddNext(cfg, s, op.id, op.at, now, t) && ConfigOk(cfg)
    ensures Framed(cfg, s, op, now, t)
  {
    hide Wrote, Framed;
    if op.id !in s.marks {
      WriteFrame(cfg, s, op, now, NewLoss("unknown", op.at, 0, now + cfg.B, s.stamps + 1), t);
    } else {
      UnchangedFrame(cfg, s, op, now);
    }
  }

  lemma RemovedFrame(cfg: Config, s: State, op: Op, now: int)
    requires op.Delete?
    ensures Framed(cfg, s, op, now, Removed(cfg, s, op.id))
  {
    hide Moved, Fresh;
  }

  lemma NextFrame(cfg: Config, s: State, op: Op, now: int, t: State)
    requires Next(cfg, s, op, now, t) && ConfigOk(cfg)
    ensures Framed(cfg, s, op, now, t)
  {
    hide FailNext, AddNext, AfterPolicy, Removed, Framed, Failed, Consumed, Evaluated, IssuedMark, Put;
    match op
    case Fail(id, cause, at) => FailFrame(cfg, s, op, now, t);
    case Add(id, at) => AddFrame(cfg, s, op, now, t);
    case MarkPolicy(id, cause, at) => PolicyFrame(cfg, s, op, now);
    case Delete(id) => RemovedFrame(cfg, s, op, now);
    case _ =>
      if op.id !in s.marks {
        UnchangedFrame(cfg, s, op, now);
      } else {
        PutFrame(cfg, s, op, now);
      }
  }

  lemma UnchangedFrame(cfg: Config, s: State, op: Op, now: int)
    requires op.id !in s.marks || s.marks[op.id].kind == Policy || op.Add?
    ensures Framed(cfg, s, op, now, s)
  {
  }

  lemma PolicyFrame(cfg: Config, s: State, op: Op, now: int)
    requires op.MarkPolicy?
    ensures Framed(cfg, s, op, now, AfterPolicy(cfg, s, op.id, op.cause, op.at))
  {
  }

  // ---- eviction and the latch ----

  lemma WroteEvicts(cfg: Config, s: State, id: Id, rec: Mark, t: State, v: Id)
    requires Wrote(cfg, s, id, rec, t) && id !in s.marks
    requires v in s.marks && v !in t.marks
    ensures id in t.marks && LossCount(s) >= cfg.mMarks && OldestWaiting(cfg, s, v)
  {
    hide NoneWaiting, OldestWaiting;
  }

  /** A mark leaves the table by a delete of its own id, or as the oldest waiting loss mark when a new loss arrives at the bound. */
  lemma OnlyOldestWaitingEvicted(cfg: Config, s: State, op: Op, now: int, t: State, v: Id)
    requires Sound(cfg, s) && Next(cfg, s, op, now, t)
    requires v in s.marks && v !in t.marks
    ensures op == Delete(v) || (
              && (op.Fail? || op.Add?) && op.id !in s.marks && op.id in t.marks
              && |OfKind(s.marks, Loss)| == cfg.mMarks
              && OldestWaiting(cfg, s, v))
  {
    hide Wrote, OfKind, OldestWaiting, StampsOk;
    CountsOf(s);
    match op
    case Fail(id, cause, at) =>
      if id !in s.marks {
        WroteEvicts(cfg, s, id, NewLoss(cause, at, 1, Schedule(cfg, now, 1), s.stamps + 1), t, v);
      }
    case Add(id, at) =>
      if id !in s.marks {
        WroteEvicts(cfg, s, id, NewLoss("unknown", at, 0, now + cfg.B, s.stamps + 1), t, v);
      }
    case _ =>
  }

  /** At the bound with no mark waiting the new loss is refused and nothing changes. */
  lemma FullRefusesNew(cfg: Config, s: State, id: Id, cause: string, at: int, now: int, t: State)
    requires Sound(cfg, s) && id !in s.marks && |OfKind(s.marks, Loss)| == cfg.mMarks && NoneWaiting(cfg, s)
    requires Next(cfg, s, Fail(id, cause, at), now, t)
    ensures t == s && t.latched
  {
    CountsOf(s);
  }

  /** The latch moves only where the bounds say. */
  ghost predicate LatchMoved(cfg: Config, s: State, t: State) {
    t.latched != s.latched ==>
      (t.latched && LossCount(t) >= cfg.mMarks) || (!t.latched && LossCount(t) < cfg.mMarks - cfg.mHyst)
  }

  lemma WroteLatch(cfg: Config, s: State, id: Id, rec: Mark, t: State)
    requires Wrote(cfg, s, id, rec, t)
    ensures LatchMoved(cfg, s, t)
  {
    hide NoneWaiting, OldestWaiting;
  }

  lemma LatchedMoves(cfg: Config, s: State, x: State)
    requires x.latched == s.latched
    ensures LatchMoved(cfg, s, Latched(cfg, x))
    ensures LatchMoved(cfg, s, x)
  {
  }

  lemma LatchOnlyFromCounts(cfg: Config, s: State, op: Op, now: int, t: State)
    requires Next(cfg, s, op, now, t)
    ensures LatchMoved(cfg, s, t)
  {
    hide Wrote, Schedule, Failed, Evaluated, Consumed, IssuedMark, LatchMoved, Latched, LossCount, PolicyFull;
    if t.latched == s.latched {
      LatchedMoves(cfg, s, t);
    }
    match op
    case Fail(id, cause, at) =>
      if id !in s.marks {
        WroteLatch(cfg, s, id, NewLoss(cause, at, 1, Schedule(cfg, now, 1), s.stamps + 1), t);
      }
    case Add(id, at) =>
      if id !in s.marks {
        WroteLatch(cfg, s, id, NewLoss("unknown", at, 0, now + cfg.B, s.stamps + 1), t);
      }
    case MarkPolicy(id, cause, at) =>
      LatchedMoves(cfg, s, Put(s, id, Mark(Policy, cause, at, 0, 0, false, s.stamps + 1)).(
                             policyCount := s.policyCount + 1, stamps := s.stamps + 1));
    case Delete(id) =>
      LatchedMoves(cfg, s, s.(marks := s.marks - {id},
                              policyCount := if id in s.marks && s.marks[id].kind == Policy && s.policyCount > 0
                                             then s.policyCount - 1 else s.policyCount));
    case _ =>
  }

  /** On at the bound, off below the hysteresis, unchanged between; a hysteresis as wide as the table never lets it lift. */
  lemma LatchHysteresis(cfg: Config, s: State, op: Op, now: int, t: State)
    requires Sound(cfg, s) && Next(cfg, s, op, now, t)
    ensures var loss := |OfKind(t.marks, Loss)|;
            && (loss >= cfg.mMarks ==> t.latched)
            && (loss < cfg.mMarks - cfg.mHyst ==> !t.latched)
            && (cfg.mMarks - cfg.mHyst <= loss < cfg.mMarks ==> t.latched == s.latched)
    ensures cfg.mHyst >= cfg.mMarks && s.latched ==> t.latched
  {
    hide OfKind, Next, StampsOk;
    NextKeepsSound(cfg, s, op, now, t);
    CountsOf(t);
    LatchOnlyFromCounts(cfg, s, op, now, t);
  }

  /** With room under the hysteresis the latch does lift: an emptied table admits strangers again. */
  lemma EmptyTableUnlatched(cfg: Config, s: State)
    requires Sound(cfg, s) && s.marks == map[]
    ensures cfg.mHyst < cfg.mMarks ==> !s.latched
  {
    CountsOf(s);
    assert OfKind(s.marks, Loss) == {};
  }

  // ---- the pace of attempts ----

  lemma MovedDue(cfg: Config, m: Mark, op: Op, now: int)
    requires Exhausted(cfg, m)
    ensures Moved(cfg, m, op, now).dueAt ==
            if op.Fail? || op.Consume? || (op.Issue? && Due(m, now)) then now + cfg.rRefill else m.dueAt
  {
  }

  /** A retained exhausted mark moves only by operations on its own id. */
  lemma RetainedMark(cfg: Config, s: State, op: Op, now: int, t: State, id: Id)
    requires Next(cfg, s, op, now, t) && ConfigOk(cfg)
    requires id in s.marks && id in t.marks && Exhausted(cfg, s.marks[id]) && t.marks[id].kind == Loss
    ensures var m, n := s.marks[id], t.marks[id];
            n.dueAt == if op.id == id && (op.Fail? || op.Consume? || (op.Issue? && Due(m, now)))
                       then now + cfg.rRefill else m.dueAt
  {
    hide Next, Moved;
    NextFrame(cfg, s, op, now, t);
    MovedDue(cfg, s.marks[id], op, now);
  }

  /** A run under a clock that never steps back. */
  ghost predicate Run(cfg: Config, states: seq<State>, ops: seq<Op>, clock: seq<int>) {
    && |states| == |ops| + 1 && |clock| == |ops|
    && states[0] == Empty()
    && (forall i, j :: 0 <= i <= j < |clock| ==> clock[i] <= clock[j])
    && (forall i :: 0 <= i < |ops| ==> Moves(cfg, states, ops, clock, i))
  }

  ghost predicate Moves(cfg: Config, states: seq<State>, ops: seq<Op>, clock: seq<int>, i: nat)
    requires i < |ops| == |clock| && |states| == |ops| + 1
  {
    Next(cfg, states[i], ops[i], clock[i], states[i + 1])
  }

  lemma {:induction false} RunSound(cfg: Config, states: seq<State>, ops: seq<Op>, clock: seq<int>, i: nat)
    requires ConfigOk(cfg) && Run(cfg, states, ops, clock) && i <= |ops|
    ensures Sound(cfg, states[i])
  {
    if i > 0 {
      RunSound(cfg, states, ops, clock, i - 1);
      assert Moves(cfg, states, ops, clock, i - 1);
      NextKeepsSound(cfg, states[i - 1], ops[i - 1], clock[i - 1], states[i]);
    } else {
      assert OfKind(map[], Loss) == {} && OfKind(map[], Policy) == {};
    }
  }

  /** No exhausted mark is due later than a refill window from the last operation. */
  ghost predicate DueSoon(cfg: Config, s: State, now: int) {
    forall id :: id in s.marks && Exhausted(cfg, s.marks[id]) ==> s.marks[id].dueAt <= now + cfg.rRefill
  }

  lemma MovedDueSoon(cfg: Config, m: Mark, op: Op, before: int, now: int)
    requires ConfigOk(cfg) && before <= now && m.kind == Loss
    requires Exhausted(cfg, m) ==> m.dueAt <= before + cfg.rRefill
    ensures Exhausted(cfg, Moved(cfg, m, op, now)) ==> Moved(cfg, m, op, now).dueAt <= now + cfg.rRefill
  {
    hide Pow;
  }

  lemma NextDueSoon(cfg: Config, s: State, op: Op, before: int, now: int, t: State)
    requires DueSoon(cfg, s, before) && before <= now && Next(cfg, s, op, now, t) && ConfigOk(cfg)
    ensures DueSoon(cfg, t, now)
  {
    hide Next, Moved;
    NextFrame(cfg, s, op, now, t);
    forall id | id in t.marks && Exhausted(cfg, t.marks[id]) ensures t.marks[id].dueAt <= now + cfg.rRefill {
      if id == op.id && id in s.marks {
        MovedDueSoon(cfg, s.marks[id], op, before, now);
      }
    }
  }

  lemma {:induction false} RunDueSoon(cfg: Config, states: seq<State>, ops: seq<Op>, clock: seq<int>, i: nat)
    requires ConfigOk(cfg) && Run(cfg, states, ops, clock) && i < |ops|
    ensures DueSoon(cfg, states[i + 1], clock[i])
  {
    assert Moves(cfg, states, ops, clock, i);
    if i > 0 {
      RunDueSoon(cfg, states, ops, clock, i - 1);
      NextDueSoon(cfg, states[i], ops[i], clock[i - 1], clock[i], states[i + 1]);
    } else {
      NextDueSoon(cfg, states[0], ops[0], clock[0], clock[0], states[1]);
    }
  }

  /** The identity's mark is held, as an exhausted loss, in every state from `i` to `j`. */
  ghost predicate RetainedFrom(cfg: Config, states: seq<State>, id: Id, i: nat, j: nat) {
    forall k :: i <= k <= j && k < |states| ==> id in states[k].marks && Exhausted(cfg, states[k].marks[id])
  }

  /** Once exhausted, a retained mark's due time never decreases. */
  lemma {:induction false} DueNeverDecreases(
    cfg: Config, states: seq<State>, ops: seq<Op>, clock: seq<int>, id: Id, i: nat, j: nat)
    requires ConfigOk(cfg) && Run(cfg, states, ops, clock) && i <= j <= |ops|
    requires RetainedFrom(cfg, states, id, i, j)
    ensures id in states[i].marks && id in states[j].marks
    ensures states[i].marks[id].dueAt <= states[j].marks[id].dueAt
    decreases j - i
  {
    hide Next;
    if i < j {
      DueNeverDecreases(cfg, states, ops, clock, id, i, j - 1);
      assert Moves(cfg, states, ops, clock, j - 1);
      RetainedMark(cfg, states[j - 1], ops[j - 1], clock[j - 1], states[j], id);
      if j >= 2 {
        RunDueSoon(cfg, states, ops, clock, j - 2);
      }
    }
  }

  /** An evaluation that let an attempt at the identity go on. */
  ghost predicate Passed(states: seq<State>, ops: seq<Op>, clock: seq<int>, id: Id, i: nat)
    requires i < |ops| == |clock| && |states| == |ops| + 1
  {
    (ops[i] == Evaluate(id) || ops[i] == Issue(id)) && id in states[i].marks && Due(states[i].marks[id], clock[i])
  }

  /** An attempt at the identity that went out and was charged. */
  ghost predicate Charged(states: seq<State>, ops: seq<Op>, clock: seq<int>, id: Id, i: nat)
    requires i < |ops| == |clock| && |states| == |ops| + 1
  {
    ops[i] == Consume(id) || (ops[i] == Issue(id) && Passed(states, ops, clock, id, i))
  }

  /**
   * After an attempt was charged to a retained exhausted mark, none is let go on for a refill window, whatever ran
   * between them. An attempt issued at once is both.
   */
  lemma AttemptsApart(
    cfg: Config, states: seq<State>, ops: seq<Op>, clock: seq<int>, id: Id, i: nat, j: nat)
    requires ConfigOk(cfg) && Run(cfg, states, ops, clock) && i < j < |ops|
    requires RetainedFrom(cfg, states, id, i, j)
    requires Charged(states, ops, clock, id, i) && Passed(states, ops, clock, id, j)
    ensures clock[j] - clock[i] >= cfg.rRefill
  {
    hide Next;
    assert Moves(cfg, states, ops, clock, i);
    RetainedMark(cfg, states[i], ops[i], clock[i], states[i + 1], id);
    DueNeverDecreases(cfg, states, ops, clock, id, i + 1, j);
  }

  /** Two attempts evaluated before either is charged are not kept apart: both can go out at one time. */
  lemma OverlappingAttempts(id: Id)
    ensures var cfg := ConfigOf(Overrides(None, None, Some(1), None, None, None, None));
            var ops := [Fail(id, "lost", 0), Evaluate(id), Evaluate(id), Consume(id), Consume(id)];
            var clock := [0, 60000, 60000, 60000, 60000];
            exists states ::
              && Run(cfg, states, ops, clock) && RetainedFrom(cfg, states, id, 1, 5)
              && Passed(states, ops, clock, id, 1) && Passed(states, ops, clock, id, 2)
              && Charged(states, ops, clock, id, 3) && Charged(states, ops, clock, id, 4)
  {
    var cfg := ConfigOf(Overrides(None, None, Some(1), None, None, None, None));
    var ops := [Fail(id, "lost", 0), Evaluate(id), Evaluate(id), Consume(id), Consume(id)];
    var clock := [0, 60000, 60000, 60000, 60000];
    var m := NewLoss("lost", 0, 1, 60000, 1);
    var s1 := State(map[id := m], false, 0, 1);
    var s2 := Put(s1, id, m.(token := true));
    var s4 := Put(s1, id, m.(dueAt := 120000));
    var states := [Empty(), s1, s2, s2, s4, s4];
    assert Moves(cfg, states, ops, clock, 0);
    assert s2.marks[id := m.(token := true)] == s2.marks;
    assert Moves(cfg, states, ops, clock, 1) && Moves(cfg, states, ops, clock, 2);
    assert s2.marks[id := m.(dueAt := 120000)] == s4.marks && s4.marks[id := m.(dueAt := 120000)] == s4.marks;
    assert Moves(cfg, states, ops, clock, 3) && Moves(cfg, states, ops, clock, 4);
    hide Next;
    assert Run(cfg, states, ops, clock);
  }

  // ---- the class ----

  class Marks {
    const cfg: Config
    var marks: map<Id, Mark>
    var fullLatched: bool
    var policyCount: nat
    var stamps: nat

    ghost function Now(): State
      reads this
    {
      State(marks, fullLatched, policyCount, stamps)
    }

    constructor (o: Overrides)
      ensures cfg == ConfigOf(o) && Now() == Empty() && Sound(cfg, Now())
    {
      cfg := ConfigOf(o);
      marks, fullLatched, policyCount, stamps := map[], false, 0, 0;
      new;
      assert OfKind(map[], Loss) == {} && OfKind(map[], Policy) == {};
    }

    method Latch()
      modifies this`fullLatched
      ensures Now() == Latched(cfg, old(Now()))
    {
      var loss := |marks| - policyCount;
      if loss >= cfg.mMarks {
        fullLatched := true;
      } else if loss < cfg.mMarks - cfg.mHyst {
        fullLatched := false;
      }
    }

    /** `_admitWrite`: room for one more loss mark, made if need be. */
    method AdmitWrite() returns (ok: bool)
      modifies this`marks
      ensures if LossCount(old(Now())) < cfg.mMarks then ok && Now() == old(Now())
              else if NoneWaiting(cfg, old(Now())) then !ok && Now() == old(Now())
              else ok && exists v :: OldestWaiting(cfg, old(Now()), v) && Now() == old(Now()).(marks := old(marks) - {v})
    {
      if |marks| - policyCount < cfg.mMarks {
        return true;
      }
      var victim: Option<Id> := None;
      var keys := marks.Keys;
      while keys != {}
        invariant keys <= marks.Keys
        invariant victim.None? ==> forall id :: id in marks.Keys - keys ==> !Waiting(cfg, marks[id])
        invariant victim.Some? ==> victim.value in marks && Waiting(cfg, marks[victim.value])
        invariant victim.Some? ==> forall id :: id in marks.Keys - keys && Waiting(cfg, marks[id]) ==>
                                     marks[victim.value].stamp <= marks[id].stamp
        decreases |keys|
      {
        var id :| id in keys;
        keys := keys - {id};
        var m := marks[id];
        if m.kind != Loss || m.attempts < cfg.aMax || m.token {
          continue;
        }
        if victim.None? || m.stamp < marks[victim.value].stamp {
          victim := Some(id);
        }
      }
      if victim.None? {
        return false;
      }
      assert OldestWaiting(cfg, Now(), victim.value);
      marks := marks - {victim.value};
      return true;
    }

    method Write(id: Id, rec: Mark) returns (ok: bool)
      requires id !in marks
      modifies this`marks, this`fullLatched, this`stamps
      ensures Wrote(cfg, old(Now()), id, rec, Now())
      ensures !ok ==> Now() == old(Now())
      ensures ok ==> id in marks && marks[id] == rec
    {
      ok := AdmitWrite();
      if ok {
        stamps := stamps + 1;
        marks := marks[id := rec];
        Latch();
      }
    }

    /** `fail`: the mark as it now is, or nothing when the table refused a new one. */
    method Fail(id: Id, cause: string, at: int, now: int) returns (mark: Option<Mark>)
      requires Sound(cfg, Now())
      modifies this`marks, this`fullLatched, this`stamps
      ensures Next(cfg, old(Now()), Op.Fail(id, cause, at), now, Now()) && Sound(cfg, Now())
      ensures mark == if id in marks then Some(marks[id]) else None
    {
      hide Sound, OfKind, Pow, Wrote;
      if id in marks {
        var m := marks[id];
        if m.kind == Loss {
          var attempts := if m.attempts + 1 < cfg.aMax then m.attempts + 1 else cfg.aMax;
          marks := marks[id := m.(attempts := attempts, cause := cause, at := at, token := false,
                                  dueAt := Schedule(cfg, now, attempts))];
        }
      } else {
        var written := Write(id, NewLoss(cause, at, 1, Schedule(cfg, now, 1), stamps + 1));
      }
      mark := if id in marks then Some(marks[id]) else None;
      NextKeepsSound(cfg, old(Now()), Op.Fail(id, cause, at), now, Now());
    }

    method Add(id: Id, at: int, now: int)
      requires Sound(cfg, Now())
      modifies this`marks, this`fullLatched, this`stamps
      ensures Next(cfg, old(Now()), Op.Add(id, at), now, Now()) && Sound(cfg, Now())
    {
      hide Sound, OfKind, Pow, Wrote;
      if id !in marks {
        var ok := Write(id, NewLoss("unknown", at, 0, now + cfg.B, stamps + 1));
      }
      NextKeepsSound(cfg, old(Now()), Op.Add(id, at), now, Now());
    }

    method MarkPolicy(id: Id, cause: string, at: int)
      requires Sound(cfg, Now())
      modifies this
      ensures Next(cfg, old(Now()), Op.MarkPolicy(id, cause, at), 0, Now()) && Sound(cfg, Now())
    {
      hide Sound, OfKind, Latched;
      if id in marks && marks[id].kind == Policy {
        marks := marks[id := marks[id].(cause := cause, at := at)];
      } else if policyCount < cfg.mPolicy {
        marks := marks - {id};
        stamps := stamps + 1;
        marks := marks[id := Mark(Policy, cause, at, 0, 0, false, stamps)];
        assert marks == old(marks)[id := Mark(Policy, cause, at, 0, 0, false, stamps)];
        policyCount := policyCount + 1;
        Latch();
      }
      NextKeepsSound(cfg, old(Now()), Op.MarkPolicy(id, cause, at), 0, Now());
    }

    /** `delete`, and `bind`, which is the same. */
    method Delete(id: Id) returns (ok: bool)
      requires Sound(cfg, Now())
      modifies this`marks, this`fullLatched, this`policyCount
      ensures Next(cfg, old(Now()), Op.Delete(id), 0, Now()) && Sound(cfg, Now())
      ensures ok <==> old(id in marks)
    {
      ok := id in marks;
      if ok && marks[id].kind == Policy && policyCount > 0 {
        policyCount := policyCount - 1;
      }
      marks := marks - {id};
      Latch();
      NextKeepsSound(cfg, old(Now()), Op.Delete(id), 0, Now());
    }

    /** `eligible`: an unmarked identity waits while either table is full, a policy mark never passes, a loss mark passes when due. */
    method Eligible(id: Id, now: int) returns (ok: bool)
      requires Sound(cfg, Now())
      modifies this`marks
      ensures Next(cfg, old(Now()), Evaluate(id), now, Now()) && Sound(cfg, Now())
      ensures ok <==> if old(id in marks) then Due(old(marks[id]), now) else !fullLatched && !PolicyFull(cfg, Now())
    {
      if id !in marks {
        return !(fullLatched || policyCount >= cfg.mPolicy);
      }
      var m := marks[id];
      ok := false;
      if m.kind == Loss && now >= m.dueAt {
        ok := true;
        if m.attempts >= cfg.aMax && !m.token {
          marks := marks[id := m.(token := true)];
        }
      }
      assert marks == old(marks)[id := Evaluated(cfg, m, now)];
      NextKeepsSound(cfg, old(Now()), Evaluate(id), now, Now());
    }

    method Consume(id: Id, now: int)
      requires Sound(cfg, Now())
      modifies this`marks
      ensures Next(cfg, old(Now()), Op.Consume(id), now, Now()) && Sound(cfg, Now())
    {
      if id in marks {
        var m := marks[id];
        if m.kind == Loss && m.attempts >= cfg.aMax {
          marks := marks[id := m.(token := false, dueAt := now + cfg.rRefill)];
        }
        assert marks == old(marks)[id := Consumed(cfg, m, now)];
      }
      NextKeepsSound(cfg, old(Now()), Op.Consume(id), now, Now());
    }

    /** An attempt issued at once: evaluated, and charged when it passes. */
    method IssueIfEligible(id: Id, now: int) returns (issued: bool)
      requires Sound(cfg, Now())
      modifies this`marks
      ensures if old(id in marks) then Next(cfg, old(Now()), Issue(id), now, Now()) else Now() == old(Now())
      ensures issued <==> if old(id in marks) then Due(old(marks[id]), now) else !fullLatched && !PolicyFull(cfg, Now())
      ensures Sound(cfg, Now())
    {
      hide Sound;
      issued := Eligible(id, now);
      if issued {
        Consume(id, now);
      }
      if id in old(marks) {
        assert Now() == AfterIssue(cfg, old(Now()), id, now);
      }
    }
  }
}
