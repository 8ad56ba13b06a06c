/** Durability obligations: one ledger of messages a topic, moved only by evidence. */
module Durability {

  import opened Options

  datatype Status = Pending | Verified | Expired | Cancelled

  datatype Reason = NotConfigured | NotAvailable

  datatype Entry = Entry(topic: int, state: Status, attempts: nat, at: int, reason: Option<Reason>)

  type Entries = map<string, Entry>

  /** A replication outcome; a flag is true only when it was exactly true. */
  datatype Rep = Rep(noCohort: bool, dispatched: bool, snapshot: bool, verified: int, attempted: int)

  datatype Kind = NoCohort | NoDispatch | NoSnapshot | Evidence

  /** `_classify`: only a dispatched full snapshot says anything about a message. */
  function Classify(rep: Rep): (kind: Kind)
    ensures kind == Evidence <==> !rep.noCohort && rep.dispatched && rep.snapshot
    ensures kind == NoCohort <==> rep.noCohort
  {
    if rep.noCohort then NoCohort
    else if !rep.dispatched then NoDispatch
    else if !rep.snapshot then NoSnapshot
    else Evidence
  }

  // ---- one entry ----

  function Opened(topic: int, now: int): Entry {
    Entry(topic, Pending, 0, now, None)
  }

  /** One verdict on a pending message; terminal states are final. */
  function Judged(e: Entry, verified: int, attempted: int, maxAttempts: nat, now: int): Entry {
    if e.state != Pending then e
    else if verified > 0 then e.(state := Verified, at := now)
    else if attempted == 0 || e.attempts + 1 >= maxAttempts then e.(attempts := e.attempts + 1, state := Expired, at := now)
    else e.(attempts := e.attempts + 1)
  }

  function Retired(e: Entry, reason: Reason, now: int): Entry {
    if e.state != Pending then e else e.(state := Expired, reason := Some(reason), at := now)
  }

  function Withdrawn(e: Entry, now: int): Entry {
    if e.state != Pending then e else e.(state := Cancelled, at := now)
  }

  function Replicated(e: Entry, rep: Rep, maxAttempts: nat, now: int): Entry {
    match Classify(rep)
    case NoCohort => Retired(e, NotAvailable, now)
    case Evidence => Judged(e, rep.verified, rep.attempted, maxAttempts, now)
    case _ => e
  }

  function TopicEntry(e: Entry, topic: int, rep: Rep, maxAttempts: nat, now: int): Entry {
    if e.topic == topic then Replicated(e, rep, maxAttempts, now) else e
  }

  // ---- a ledger ----

  function Pendings(m: Entries): set<string> {
    set k | k in m && m[k].state == Pending
  }

  function Terminals(m: Entries): set<string> {
    set k | k in m && m[k].state != Pending
  }

  lemma StatesCount(m: Entries)
    ensures |m| == |Pendings(m)| + |Terminals(m)|
  {
    assert m.Keys == Pendings(m) + Terminals(m);
    assert |m| == |m.Keys|;
  }

  datatype Op =
    | Open(msgId: string, topic: int)
    | RecordOne(msgId: string, rep: Rep)
    | RecordTopic(topic: int, rep: Rep)
    | NoCohortConfigured(msgId: string)
    | Cancel(msgId: string)
    | Reclaim

  function OnEntry(m: Entries, k: string, f: Entry -> Entry): Entries {
    if k in m then m[k := f(m[k])] else m
  }

  /** The ledger down to its cap: terminal entries go, oldest first and no more than needed; pending ones stay. */
  ghost predicate Pruned(m: Entries, cap: nat, t: Entries) {
    && t.Keys <= m.Keys
    && (forall k :: k in t ==> t[k] == m[k])
    && (forall k :: k in m && k !in t ==> m[k].state != Pending)
    && (forall j, k :: j in m && j !in t && k in t && m[k].state != Pending ==> m[j].at <= m[k].at)
    && (|m| <= cap ==> t == m)
    && (|m| > cap ==> |t| == cap || (|t| > cap && Terminals(t) == {}))
  }

  ghost predicate Next(cap: nat, maxAttempts: nat, m: Entries, op: Op, now: int, t: Entries) {
    match op
    case Open(k, topic) =>
      if k == "" || k in m then t == m else Pruned(m[k := Opened(topic, now)], cap, t)
    case RecordOne(k, rep) => t == OnEntry(m, k, e => Replicated(e, rep, maxAttempts, now))
    case RecordTopic(topic, rep) => t == map k | k in m :: TopicEntry(m[k], topic, rep, maxAttempts, now)
    case NoCohortConfigured(k) => t == OnEntry(m, k, e => Retired(e, NotConfigured, now))
    case Cancel(k) => t == OnEntry(m, k, e => Withdrawn(e, now))
    case Reclaim => t == m - Terminals(m)
  }

  // ---- what one operation can do to one obligation ----

  /** The operation is replication evidence that speaks for the message. */
  ghost predicate SpeaksFor(op: Op, k: string, e: Entry) {
    || (op.RecordOne? && op.msgId == k)
    || (op.RecordTopic? && op.topic == e.topic)
  }

  /** A message is verified exactly by a dispatched full snapshot that somebody verified. */
  lemma VerifiedOnlyByEvidence(cap: nat, maxAttempts: nat, m: Entries, op: Op, now: int, t: Entries, k: string)
    requires Next(cap, maxAttempts, m, op, now, t)
    requires k in m && m[k].state == Pending
    ensures k in t
    ensures t[k].state == Verified <==>
            SpeaksFor(op, k, m[k]) && op.rep.dispatched && op.rep.snapshot && !op.rep.noCohort && op.rep.verified > 0
  {
  }

  /**
   * What ends an obligation, exactly: a cancel, no cohort, or evidence that verifies, that found nobody to try, or
   * that spends the last attempt.
   */
  lemma EndsExactly(cap: nat, maxAttempts: nat, m: Entries, op: Op, now: int, t: Entries, k: string)
    requires Next(cap, maxAttempts, m, op, now, t)
    requires k in m && m[k].state == Pending
    ensures k in t
    ensures t[k].state != Pending <==>
            || ((op.Cancel? || op.NoCohortConfigured?) && op.msgId == k)
            || (SpeaksFor(op, k, m[k]) && (
                  || op.rep.noCohort
                  || (Classify(op.rep) == Evidence &&
                      (op.rep.verified > 0 || op.rep.attempted == 0 || m[k].attempts + 1 >= maxAttempts))))
  {
  }

  /** An ended obligation says how and when it ended; one still pending is as it was but for its attempts. */
  lemma EndSaysHow(cap: nat, maxAttempts: nat, m: Entries, op: Op, now: int, t: Entries, k: string)
    requires Next(cap, maxAttempts, m, op, now, t)
    requires k in m && m[k].state == Pending
    ensures k in t
    ensures t[k].state == Pending ==> t[k] == m[k].(attempts := t[k].attempts)
    ensures t[k].state != Pending ==> t[k].at == now && t[k].topic == m[k].topic
    ensures t[k].state == Cancelled <==> op == Cancel(k)
    ensures t[k].attempts == m[k].attempts + if SpeaksFor(op, k, m[k]) && Classify(op.rep) == Evidence && op.rep.verified <= 0
                                             then 1 else 0
    ensures t[k].state != Pending ==>
              t[k].reason == if op.NoCohortConfigured? then Some(NotConfigured)
                             else if (op.RecordOne? || op.RecordTopic?) && op.rep.noCohort then Some(NotAvailable)
                             else m[k].reason
  {
  }

  /** A new obligation starts pending with no attempts; room for it is made by the entries that ended first, and only at the cap. */
  lemma OpenTakesOldest(cap: nat, maxAttempts: nat, m: Entries, k: string, topic: int, now: int, t: Entries)
    requires k != "" && k !in m && Next(cap, maxAttempts, m, Open(k, topic), now, t)
    ensures k in t && t[k] == Entry(topic, Pending, 0, now, None)
    ensures forall j :: j in m ==>
              if j in t then t[j] == m[j]
              else |m| >= cap && m[j].state != Pending && forall i :: i in t && t[i].state != Pending ==> m[j].at <= t[i].at
    ensures forall j :: j in t ==> j == k || j in m
    ensures |t| >= (if |m| + 1 <= cap then |m| + 1 else cap)
  {
  }

  /** Reclaiming leaves the pending obligations, as they were, and nothing else. */
  lemma ReclaimLeavesPending(cap: nat, maxAttempts: nat, m: Entries, now: int, t: Entries, k: string)
    requires Next(cap, maxAttempts, m, Reclaim, now, t)
    ensures k in t <==> k in m && m[k].state == Pending
    ensures k in t ==> t[k] == m[k]
  {
  }

  /** An entry that is kept in a terminal state is kept as it is. */
  lemma TerminalIsFinal(cap: nat, maxAttempts: nat, m: Entries, op: Op, now: int, t: Entries, k: string)
    requires Next(cap, maxAttempts, m, op, now, t)
    requires k in m && m[k].state != Pending && k in t
    ensures t[k] == m[k]
  {
  }

  /** A pending obligation is never dropped to make room, whatever arrives. */
  lemma PendingIsKept(cap: nat, maxAttempts: nat, m: Entries, op: Op, now: int, t: Entries, k: string)
    requires Next(cap, maxAttempts, m, op, now, t)
    requires k in m && m[k].state == Pending
    ensures k in t && t[k].topic == m[k].topic
  {
  }

  /** Attempts are counted by evidence alone, and stay below the budget while the message is pending. */
  ghost predicate WithinBudget(maxAttempts: nat, m: Entries) {
    forall k :: k in m && m[k].state == Pending ==> m[k].attempts == 0 || m[k].attempts < maxAttempts
  }

  lemma AttemptsWithinBudget(cap: nat, maxAttempts: nat, m: Entries, op: Op, now: int, t: Entries)
    requires Next(cap, maxAttempts, m, op, now, t) && WithinBudget(maxAttempts, m)
    ensures WithinBudget(maxAttempts, t)
  {
  }

  lemma OnlyEvidenceBurnsAttempts(cap: nat, maxAttempts: nat, m: Entries, op: Op, now: int, t: Entries, k: string)
    requires Next(cap, maxAttempts, m, op, now, t)
    requires k in m && m[k].state == Pending && k in t && t[k].state == Pending
    ensures t[k].attempts == m[k].attempts + if SpeaksFor(op, k, m[k]) && Classify(op.rep) == Evidence then 1 else 0
  {
  }

  // ---- runs ----

  ghost predicate Run(cap: nat, maxAttempts: nat, states: seq<Entries>, ops: seq<Op>, clock: seq<int>) {
    && |states| == |ops| + 1 && |clock| == |ops|
    && states[0] == map[]
    && forall i :: 0 <= i < |ops| ==> Moves(cap, maxAttempts, states, ops, clock, i)
  }

  ghost predicate Moves(cap: nat, maxAttempts: nat, states: seq<Entries>, ops: seq<Op>, clock: seq<int>, i: nat)
    requires i < |ops| == |clock| && |states| == |ops| + 1
  {
    Next(cap, maxAttempts, states[i], ops[i], clock[i], states[i + 1])
  }

  lemma {:induction false} RunWithinBudget(
    cap: nat, maxAttempts: nat, states: seq<Entries>, ops: seq<Op>, clock: seq<int>, i: nat)
    requires Run(cap, maxAttempts, states, ops, clock) && i <= |ops|
    ensures WithinBudget(maxAttempts, states[i])
  {
    if i > 0 {
      RunWithinBudget(cap, maxAttempts, states, ops, clock, i - 1);
      assert Moves(cap, maxAttempts, states, ops, clock, i - 1);
      AttemptsWithinBudget(cap, maxAttempts, states[i - 1], ops[i - 1], clock[i - 1], states[i]);
    }
  }

  /** The evidence records on a message in a stretch of a run. */
  ghost function EvidenceOn(states: seq<Entries>, ops: seq<Op>, k: string, i: nat, j: nat): nat
    requires i <= j <= |ops| && |states| == |ops| + 1
    decreases j
  {
    if j == i then 0
    else EvidenceOn(states, ops, k, i, j - 1) +
         if k in states[j - 1] && SpeaksFor(ops[j - 1], k, states[j - 1][k]) && Classify(ops[j - 1].rep) == Evidence
         then 1 else 0
  }

  ghost predicate PendingFrom(states: seq<Entries>, k: string, i: nat, j: nat) {
    forall n :: i <= n <= j && n < |states| ==> k in states[n] && states[n][k].state == Pending
  }

  /** While a message stays pending its attempts grow by exactly the evidence that spoke for it. */
  lemma {:induction false} AttemptsAreEvidence(
    cap: nat, maxAttempts: nat, states: seq<Entries>, ops: seq<Op>, clock: seq<int>, k: string, i: nat, j: nat)
    requires Run(cap, maxAttempts, states, ops, clock) && i <= j <= |ops| && PendingFrom(states, k, i, j)
    ensures k in states[i] && k in states[j]
    ensures states[j][k].attempts == states[i][k].attempts + EvidenceOn(states, ops, k, i, j)
    decreases j
  {
    hide Next, SpeaksFor;
    if i < j {
      AttemptsAreEvidence(cap, maxAttempts, states, ops, clock, k, i, j - 1);
      assert Moves(cap, maxAttempts, states, ops, clock, j - 1);
      OnlyEvidenceBurnsAttempts(cap, maxAttempts, states[j - 1], ops[j - 1], clock[j - 1], states[j], k);
    }
  }

  /** A message still pending, however long it waited, has had fewer evidence records than the attempt budget, or none. */
  lemma EvidenceBounded(
    cap: nat, maxAttempts: nat, states: seq<Entries>, ops: seq<Op>, clock: seq<int>, k: string, i: nat, j: nat)
    requires Run(cap, maxAttempts, states, ops, clock) && i <= j <= |ops| && PendingFrom(states, k, i, j)
    ensures EvidenceOn(states, ops, k, i, j) == 0 || EvidenceOn(states, ops, k, i, j) < maxAttempts
  {
    AttemptsAreEvidence(cap, maxAttempts, states, ops, clock, k, i, j);
    RunWithinBudget(cap, maxAttempts, states, ops, clock, j);
  }

  // ---- the size of a ledger ----

  /** After an open the ledger is within its cap exactly when its pending obligations are: the cap admits or refuses nobody. */
  lemma CapHoldsIffPendingFit(cap: nat, maxAttempts: nat, m: Entries, k: string, topic: int, now: int, t: Entries)
    requires k != "" && k !in m && Next(cap, maxAttempts, m, Open(k, topic), now, t)
    ensures |t| <= cap <==> |Pendings(m)| + 1 <= cap
    ensures Pendings(t) == Pendings(m) + {k}
  {
    var added := m[k := Opened(topic, now)];
    assert Pendings(added) == Pendings(m) + {k};
    assert Pendings(t) == Pendings(added);
    StatesCount(t);
    StatesCount(added);
  }

  // ---- the class ----

  class DurabilityLedger {
    const cap: nat
    const maxAttempts: nat
    var m: Entries

    constructor (cap: nat, maxAttempts: nat)
      ensures m == map[] && this.cap == cap && this.maxAttempts == maxAttempts
    {
      this.cap, this.maxAttempts := cap, maxAttempts;
      m := map[];
    }

    method Open(msgId: string, topic: int, now: int)
      modifies this
      ensures Next(cap, maxAttempts, old(m), Op.Open(msgId, topic), now, m)
    {
      if msgId == "" || msgId in m {
        return;
      }
      m := m[msgId := Opened(topic, now)];
      Prune();
    }

    /** The terminal entries, oldest first. */
    method TerminalsOldestFirst() returns (ks: seq<string>)
      ensures OldestFirst(m, ks)
    {
      ks := [];
      var rest := Terminals(m);
      while rest != {}
        invariant rest <= Terminals(m)
        invariant forall k :: k in ks <==> k in Terminals(m) - rest
        invariant forall i, j :: 0 <= i < j < |ks| ==> ks[i] != ks[j] && ks[i] in m && ks[j] in m && m[ks[i]].at <= m[ks[j]].at
        invariant forall i, k :: 0 <= i < |ks| && k in rest ==> ks[i] in m && m[ks[i]].at <= m[k].at
        decreases |rest|
      {
        OldestExists(m, rest);
        var k :| k in rest && forall j :: j in rest ==> m[k].at <= m[j].at;
        assert k !in ks;
        rest := rest - {k};
        ks := ks + [k];
      }
    }

    method Prune()
      modifies this
      ensures Pruned(old(m), cap, m)
    {
      hide Terminals, Pruned, Evicted, OldestFirst;
      if |m| <= cap {
        UnprunedIsPruned(m, cap);
        return;
      }
      var terminal := TerminalsOldestFirst();
      EvictNone(m, terminal);
      var i := 0;
      while i < |terminal| && |m| > cap
        invariant i <= |terminal| && Evicted(old(m), terminal, i, m)
        invariant |m| >= cap
        decreases |terminal| - i
      {
        EvictNext(old(m), terminal, i, m);
        m := m - {terminal[i]};
        i := i + 1;
      }
      PrunedFrom(old(m), cap, terminal, i, m);
    }

    method Record(msgId: string, verified: int, attempted: int, now: int) returns (state: Option<Status>)
      modifies this
      ensures m == OnEntry(old(m), msgId, e => Judged(e, verified, attempted, maxAttempts, now))
      ensures state == if msgId in m then Some(m[msgId].state) else None
    {
      if msgId !in m {
        return None;
      }
      var e := m[msgId];
      if e.state != Pending {
        assert m == old(m)[msgId := e];
        return Some(e.state);
      }
      if verified > 0 {
        m := m[msgId := e.(state := Verified, at := now)];
        return Some(Verified);
      }
      e := e.(attempts := e.attempts + 1);
      if attempted == 0 || e.attempts >= maxAttempts {
        e := e.(state := Expired, at := now);
      }
      m := m[msgId := e];
      return Some(e.state);
    }

    method Expire(msgId: string, reason: Reason, now: int)
      modifies this
      ensures m == OnEntry(old(m), msgId, e => Retired(e, reason, now))
    {
      if msgId in m {
        if m[msgId].state == Pending {
          m := m[msgId := m[msgId].(state := Expired, reason := Some(reason), at := now)];
        } else {
          assert m == old(m)[msgId := old(m)[msgId]];
        }
      }
    }

    method RecordOne(msgId: string, rep: Rep, now: int) returns (state: Option<Status>)
      modifies this
      ensures Next(cap, maxAttempts, old(m), Op.RecordOne(msgId, rep), now, m)
      ensures state == if msgId in m then Some(m[msgId].state) else None
    {
      var kind := Classify(rep);
      if kind == NoCohort {
        Expire(msgId, NotAvailable, now);
      } else if kind == Evidence {
        state := Record(msgId, rep.verified, rep.attempted, now);
        return;
      } else if msgId in m {
        assert m == old(m)[msgId := old(m)[msgId]];
      }
      state := if msgId in m then Some(m[msgId].state) else None;
    }

    /** One verdict for every pending message of a topic, counted by what became of them. */
    method RecordTopic(topic: int, rep: Rep, now: int) returns (verified: nat, expired: nat, pending: nat)
      modifies this
      ensures Next(cap, maxAttempts, old(m), Op.RecordTopic(topic, rep), now, m)
      ensures verified == Tally(old(m), m, topic, old(m).Keys, Verified)
      ensures expired == Tally(old(m), m, topic, old(m).Keys, Expired)
      ensures pending == Tally(old(m), m, topic, old(m).Keys, Pending)
    {
      hide Next, Halfway, TopicEntry, Tally;
      verified, expired, pending := 0, 0, 0;
      var keys := m.Keys;
      ghost var before := m;
      ghost var done: set<string> := {};
      NoneJudged(before, topic, rep, maxAttempts, now);
      while keys != {}
        invariant keys == before.Keys - done && done <= before.Keys
        invariant Halfway(before, m, topic, rep, maxAttempts, now, done, verified, expired, pending)
        decreases |keys|
      {
        var k :| k in keys;
        keys := keys - {k};
        ghost var was := m;
        HalfwayEntry(before, m, topic, rep, maxAttempts, now, done, verified, expired, pending, k);
        var st := RecordIfOpen(k, topic, rep, now);
        HalfwayNext(before, was, topic, rep, maxAttempts, now, done, verified, expired, pending, k);
        verified := verified + One(st == Some(Verified));
        expired := expired + One(st == Some(Expired));
        pending := pending + One(st == Some(Pending));
        done := done + {k};
      }
      AllJudged(cap, before, m, topic, rep, maxAttempts, now, done, verified, expired, pending);
    }

    /** One pass of that loop: what a pending message of the topic has become, and nothing for any other. */
    method RecordIfOpen(k: string, topic: int, rep: Rep, now: int) returns (st: Option<Status>)
      requires k in m
      modifies this
      ensures m == old(m)[k := TopicEntry(old(m)[k], topic, rep, maxAttempts, now)]
      ensures st == if old(m)[k].state == Pending && old(m)[k].topic == topic then Some(m[k].state) else None
    {
      var e := m[k];
      if e.state != Pending || e.topic != topic {
        assert m == old(m)[k := e];
        return None;
      }
      var kind := Classify(rep);
      if kind == NoCohort {
        Expire(k, NotAvailable, now);
        return Some(Expired);
      }
      if kind != Evidence {
        assert m == old(m)[k := e];
        return Some(Pending);
      }
      st := Record(k, rep.verified, rep.attempted, now);
    }

    method NoCohortConfigured(msgId: string, now: int)
      modifies this
      ensures Next(cap, maxAttempts, old(m), Op.NoCohortConfigured(msgId), now, m)
    {
      Expire(msgId, NotConfigured, now);
    }

    method Cancel(msgId: string, now: int)
      modifies this
      ensures Next(cap, maxAttempts, old(m), Op.Cancel(msgId), now, m)
    {
      if msgId in m {
        if m[msgId].state == Pending {
          m := m[msgId := m[msgId].(state := Cancelled, at := now)];
        } else {
          assert m == old(m)[msgId := old(m)[msgId]];
        }
      }
    }

    method ReclaimTerminal() returns (n: nat)
      modifies this
      ensures Next(cap, maxAttempts, old(m), Reclaim, 0, m)
      ensures n == |Terminals(old(m))|
    {
      hide Terminals, Evicted, OldestFirst, Next;
      var terminal := TerminalsOldestFirst();
      EvictNone(m, terminal);
      n := 0;
      for i := 0 to |terminal|
        invariant Evicted(old(m), terminal, i, m) && n == i
      {
        EvictNext(old(m), terminal, i, m);
        m := m - {terminal[i]};
        n := n + 1;
      }
      AllEvicted(old(m), terminal, m);
      NextOfReclaim(cap, maxAttempts, old(m), m);
    }
  }

  lemma AllEvicted(m: Entries, ks: seq<string>, t: Entries)
    requires OldestFirst(m, ks) && Evicted(m, ks, |ks|, t)
    ensures t == m - Terminals(m) && |ks| == |Terminals(m)|
  {
    var gone := set j | 0 <= j < |ks| :: ks[j];
    forall k ensures k in gone <==> k in Terminals(m) {
      assert k in ks <==> k in Terminals(m);
    }
    assert gone == Terminals(m);
    DistinctCount(ks, |ks|);
  }

  lemma {:induction false} DistinctCount(ks: seq<string>, n: nat)
    requires n <= |ks| && forall i, j :: 0 <= i < j < |ks| ==> ks[i] != ks[j]
    ensures |set j | 0 <= j < n :: ks[j]| == n
  {
    if n > 0 {
      DistinctCount(ks, n - 1);
      assert (set j | 0 <= j < n :: ks[j]) == (set j | 0 <= j < n - 1 :: ks[j]) + {ks[n - 1]};
    }
  }

  lemma NextOfReclaim(cap: nat, maxAttempts: nat, m: Entries, t: Entries)
    requires t == m - Terminals(m)
    ensures Next(cap, maxAttempts, m, Reclaim, 0, t)
  {
  }

  lemma UnprunedIsPruned(m: Entries, cap: nat)
    requires |m| <= cap
    ensures Pruned(m, cap, m)
  {
  }

  ghost predicate OldestFirst(m: Entries, ks: seq<string>) {
    && (forall k :: k in ks <==> k in Terminals(m))
    && (forall i, j :: 0 <= i < j < |ks| ==>
          ks[i] != ks[j] && ks[i] in m && ks[j] in m && m[ks[i]].at <= m[ks[j]].at)
  }

  /** The ledger without the first `i` of those keys. */
  ghost predicate Evicted(m: Entries, ks: seq<string>, i: nat, t: Entries)
    requires i <= |ks|
  {
    t == m - (set j | 0 <= j < i :: ks[j])
  }

  lemma EvictNone(m: Entries, ks: seq<string>)
    ensures Evicted(m, ks, 0, m)
  {
  }

  lemma EvictNext(m: Entries, ks: seq<string>, i: nat, t: Entries)
    requires OldestFirst(m, ks) && i < |ks| && Evicted(m, ks, i, t)
    ensures ks[i] in t && |t| == |t - {ks[i]}| + 1
    ensures Evicted(m, ks, i + 1, t - {ks[i]})
  {
    hide OldestFirst;
    NextIsHeld(m, ks, i, t);
    DropOne(t, ks[i]);
    OneMoreGone(ks, i);
  }

  lemma NextIsHeld(m: Entries, ks: seq<string>, i: nat, t: Entries)
    requires OldestFirst(m, ks) && i < |ks| && Evicted(m, ks, i, t)
    ensures ks[i] in t
  {
    assert ks[i] in ks;
  }

  lemma OneMoreGone(ks: seq<string>, i: nat)
    requires i < |ks|
    ensures (set j | 0 <= j < i + 1 :: ks[j]) == (set j | 0 <= j < i :: ks[j]) + {ks[i]}
  {
  }

  lemma DropOne(m: Entries, k: string)
    requires k in m
    ensures |m| == |m - {k}| + 1
  {
    assert m.Keys == (m - {k}).Keys + {k};
    assert |m| == |m.Keys| && |m - {k}| == |(m - {k}).Keys|;
  }

  /** Dropping the oldest terminals until the cap is met, or none is left, is pruning. */
  lemma PrunedFrom(m: Entries, cap: nat, ks: seq<string>, i: nat, t: Entries)
    requires OldestFirst(m, ks) && i <= |ks| && Evicted(m, ks, i, t)
    requires |m| > cap && |t| >= cap && (i == |ks| || |t| <= cap)
    ensures Pruned(m, cap, t)
  {
    forall k | k in m && k !in t ensures exists j :: 0 <= j < i && ks[j] == k {
    }
    forall k | k in t && t[k].state != Pending ensures exists j :: i <= j < |ks| && ks[j] == k {
      assert k in ks;
    }
    forall k | k in m && k !in t ensures m[k].state != Pending {
      assert k in ks;
    }
    forall a, b | a in m && a !in t && b in t && m[b].state != Pending ensures m[a].at <= m[b].at {
      var x :| 0 <= x < i && ks[x] == a;
      var y :| i <= y < |ks| && ks[y] == b;
    }
    if |t| > cap {
      forall k ensures k !in Terminals(t) {
      }
    }
  }

  predicate Touched(before: Entries, topic: int, k: string) {
    k in before && before[k].state == Pending && before[k].topic == topic
  }

  function One(b: bool): nat {
    if b then 1 else 0
  }

  /** How many of the topic's formerly pending messages among `ks` are now in a state. */
  ghost function Tally(before: Entries, m: Entries, topic: int, ks: set<string>, st: Status): nat {
    |Among(before, m, topic, ks, st)|
  }

  ghost function Among(before: Entries, m: Entries, topic: int, ks: set<string>, st: Status): set<string> {
    set k | k in ks && Touched(before, topic, k) && HasState(m, k, st)
  }

  predicate HasState(m: Entries, k: string, st: Status) {
    k in m && m[k].state == st
  }

  lemma TopicVerdict(cap: nat, maxAttempts: nat, m: Entries, topic: int, rep: Rep, now: int, t: Entries, k: string)
    requires Next(cap, maxAttempts, m, Op.RecordTopic(topic, rep), now, t) && k in m && Touched(m, topic, k)
    ensures HasState(t, k, Verified) || HasState(t, k, Expired) || HasState(t, k, Pending)
    ensures rep.dispatched && rep.snapshot && !rep.noCohort && rep.verified > 0 ==> HasState(t, k, Verified)
    ensures rep.noCohort ==> HasState(t, k, Expired)
  {
  }

  /** The topic's messages that were pending. */
  ghost function Due(m: Entries, topic: int): set<string> {
    set k | k in m && m[k].state == Pending && m[k].topic == topic
  }

  /**
   * A topic's record counts each of its pending messages once, by what became of it: none was cancelled or dropped, a
   * verified snapshot verifies them all, and without a cohort they all expire.
   */
  lemma TopicRecordCountsAll(cap: nat, maxAttempts: nat, m: Entries, topic: int, rep: Rep, now: int, t: Entries)
    requires Next(cap, maxAttempts, m, Op.RecordTopic(topic, rep), now, t)
    ensures Tally(m, t, topic, m.Keys, Verified) + Tally(m, t, topic, m.Keys, Expired) + Tally(m, t, topic, m.Keys, Pending)
            == |Due(m, topic)|
    ensures rep.dispatched && rep.snapshot && !rep.noCohort && rep.verified > 0 ==>
              Tally(m, t, topic, m.Keys, Verified) == |Due(m, topic)|
    ensures rep.noCohort ==> Tally(m, t, topic, m.Keys, Expired) == |Due(m, topic)|
  {
    hide Next;
    var due := Due(m, topic);
    var v, e, p := Among(m, t, topic, m.Keys, Verified), Among(m, t, topic, m.Keys, Expired), Among(m, t, topic, m.Keys, Pending);
    forall k ensures k in due <==> k in m && Touched(m, topic, k) {
    }
    forall k | k in due
      ensures k in v + e + p
      ensures rep.dispatched && rep.snapshot && !rep.noCohort && rep.verified > 0 ==> k in v
      ensures rep.noCohort ==> k in e
    {
      TopicVerdict(cap, maxAttempts, m, topic, rep, now, t, k);
    }
    hide Touched, Due;
    assert due == v + e + p;
    if rep.dispatched && rep.snapshot && !rep.noCohort && rep.verified > 0 {
      assert due == v;
    }
    if rep.noCohort {
      assert due == e;
    }
  }

  /** The ledger with the verdict given to some of its messages. */
  ghost function Partly(m: Entries, topic: int, rep: Rep, maxAttempts: nat, now: int, done: set<string>): Entries {
    map k | k in m :: if k in done then TopicEntry(m[k], topic, rep, maxAttempts, now) else m[k]
  }

  /** The loop half way: those done have their verdict, and are counted by what became of them. */
  ghost predicate Halfway(
    before: Entries, m: Entries, topic: int, rep: Rep, maxAttempts: nat, now: int, done: set<string>,
    verified: nat, expired: nat, pending: nat)
  {
    && m == Partly(before, topic, rep, maxAttempts, now, done)
    && verified == Tally(before, m, topic, done, Verified)
    && expired == Tally(before, m, topic, done, Expired)
    && pending == Tally(before, m, topic, done, Pending)
  }

  lemma NoneJudged(m: Entries, topic: int, rep: Rep, maxAttempts: nat, now: int)
    ensures Halfway(m, m, topic, rep, maxAttempts, now, {}, 0, 0, 0)
  {
    hide Tally;
    NoTally(m, m, topic);
  }

  lemma HalfwayEntry(
    before: Entries, m: Entries, topic: int, rep: Rep, maxAttempts: nat, now: int, done: set<string>,
    verified: nat, expired: nat, pending: nat, k: string)
    requires Halfway(before, m, topic, rep, maxAttempts, now, done, verified, expired, pending)
    requires k in before && k !in done
    ensures k in m && m[k] == before[k]
  {
  }

  lemma HalfwayNext(
    before: Entries, m: Entries, topic: int, rep: Rep, maxAttempts: nat, now: int, done: set<string>,
    verified: nat, expired: nat, pending: nat, k: string)
    requires Halfway(before, m, topic, rep, maxAttempts, now, done, verified, expired, pending)
    requires k in before && k !in done
    ensures var e := TopicEntry(before[k], topic, rep, maxAttempts, now);
            var st := if before[k].state == Pending && before[k].topic == topic then Some(e.state) else None;
            Halfway(before, m[k := e], topic, rep, maxAttempts, now, done + {k},
                    verified + One(st == Some(Verified)), expired + One(st == Some(Expired)),
                    pending + One(st == Some(Pending)))
  {
    hide TopicEntry, Tally;
    var t := m[k := TopicEntry(before[k], topic, rep, maxAttempts, now)];
    assert t == Partly(before, topic, rep, maxAttempts, now, done + {k});
    assert t.Keys == m.Keys;
    TallyStep(before, m, t, topic, done, k, Verified);
    TallyStep(before, m, t, topic, done, k, Expired);
    TallyStep(before, m, t, topic, done, k, Pending);
  }

  lemma AllJudged(
    cap: nat, before: Entries, m: Entries, topic: int, rep: Rep, maxAttempts: nat, now: int, done: set<string>,
    verified: nat, expired: nat, pending: nat)
    requires Halfway(before, m, topic, rep, maxAttempts, now, done, verified, expired, pending)
    requires before.Keys - done == {} && done <= before.Keys
    ensures Next(cap, maxAttempts, before, Op.RecordTopic(topic, rep), now, m)
    ensures verified == Tally(before, m, topic, before.Keys, Verified)
    ensures expired == Tally(before, m, topic, before.Keys, Expired)
    ensures pending == Tally(before, m, topic, before.Keys, Pending)
  {
    hide TopicEntry, Tally;
    assert before.Keys == (before.Keys - done) + done == done;
  }

  lemma NoTally(before: Entries, m: Entries, topic: int)
    ensures forall st :: Tally(before, m, topic, {}, st) == 0
  {
    var none: set<string> := {};
    forall st ensures Tally(before, m, topic, none, st) == 0 {
      assert Among(before, m, topic, none, st) <= none;
    }
  }

  lemma TallyStep(before: Entries, was: Entries, now: Entries, topic: int, done: set<string>, k: string, st: Status)
    requires k !in done && k in now && was.Keys == now.Keys && k in before
    requires forall j :: j in done && j in was ==> now[j] == was[j]
    ensures Tally(before, now, topic, done + {k}, st) ==
            Tally(before, was, topic, done, st) +
            One(before[k].state == Pending && before[k].topic == topic && now[k].state == st)
  {
    hide Touched, HasState, Tally;
    forall j | j in done ensures HasState(now, j, st) == HasState(was, j, st) {
      SameState(was, now, j, st);
    }
    KeyCounted(before, now, topic, k, st);
    OneMoreCounted(before, was, now, topic, done, k, st);
  }

  lemma OneMoreCounted(before: Entries, was: Entries, now: Entries, topic: int, done: set<string>, k: string, st: Status)
    requires k !in done && forall j :: j in done ==> HasState(now, j, st) == HasState(was, j, st)
    ensures Tally(before, now, topic, done + {k}, st) ==
            Tally(before, was, topic, done, st) + One(Touched(before, topic, k) && HasState(now, k, st))
  {
    hide Touched, HasState, Among;
    var a, b := Among(before, was, topic, done, st), Among(before, now, topic, done + {k}, st);
    var more := if Touched(before, topic, k) && HasState(now, k, st) then {k} else {};
    InAmong(before, was, topic, done, st, k);
    forall j ensures j in b <==> j in a + more {
      InAmong(before, was, topic, done, st, j);
      InAmong(before, now, topic, done + {k}, st, j);
    }
    assert b == a + more;
  }

  lemma InAmong(before: Entries, m: Entries, topic: int, ks: set<string>, st: Status, j: string)
    ensures j in Among(before, m, topic, ks, st) <==> j in ks && Touched(before, topic, j) && HasState(m, j, st)
  {
    hide Touched, HasState;
  }

  lemma SameState(was: Entries, now: Entries, j: string, st: Status)
    requires was.Keys == now.Keys && (j in was ==> now[j] == was[j])
    ensures HasState(now, j, st) == HasState(was, j, st)
  {
    assert j in was.Keys <==> j in now.Keys;
  }

  lemma KeyCounted(before: Entries, now: Entries, topic: int, k: string, st: Status)
    requires k in before && k in now
    ensures Touched(before, topic, k) <==> before[k].state == Pending && before[k].topic == topic
    ensures HasState(now, k, st) <==> now[k].state == st
  {
  }

  lemma {:induction false} OldestExists(m: Entries, ks: set<string>)
    requires ks != {} && ks <= m.Keys
    ensures exists k :: k in ks && forall j :: j in ks ==> m[k].at <= m[j].at
  {
    var first :| first in ks;
    if ks == {first} {
    } else {
      OldestExists(m, ks - {first});
      var k :| k in ks - {first} && forall j :: j in ks - {first} ==> m[k].at <= m[j].at;
      var oldest := if m[first].at <= m[k].at then first else k;
      assert oldest in ks && forall j :: j in ks ==> m[oldest].at <= m[j].at;
    }
  }
}
