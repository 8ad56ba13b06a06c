/** The node-wide facade: one ledger a role, one budget for the node, and no role touching another's obligations. */
module RoleDurability {

  import opened Durability
  import opened Options

  // ---- the node on values: one ledger for each of its roles ----

  function Total(s: seq<Entries>): nat {
    if s == [] then 0 else |s[0]| + Total(s[1..])
  }

  function Reclaimed(m: Entries): Entries {
    m - Terminals(m)
  }

  function AllReclaimed(s: seq<Entries>): (r: seq<Entries>)
    ensures |r| == |s| && forall i :: 0 <= i < |s| ==> r[i] == Reclaimed(s[i])
  {
    if s == [] then [] else [Reclaimed(s[0])] + AllReclaimed(s[1..])
  }

  /** An open at the node's ceiling first has every role give up its finished entries. */
  function Base(nodeMax: nat, s: seq<Entries>): seq<Entries> {
    if Total(s) >= nodeMax then AllReclaimed(s) else s
  }

  ghost predicate NodeNext(
    nodeMax: nat, cap: nat, maxAttempts: nat, s: seq<Entries>, i: nat, op: Op, now: int, t: seq<Entries>)
  {
    && i < |s| == |t|
    && (if op.Open? then
          var base := Base(nodeMax, s);
          if Total(base) >= nodeMax then t == base
          else Next(cap, maxAttempts, base[i], op, now, t[i]) && t == base[i := t[i]]
        else
          Next(cap, maxAttempts, s[i], op, now, t[i]) && t == s[i := t[i]])
  }

  lemma {:induction false} TotalUpdate(s: seq<Entries>, i: nat, m: Entries)
    requires i < |s|
    ensures Total(s[i := m]) == Total(s) - |s[i]| + |m|
  {
    if i == 0 {
      assert s[0 := m][1..] == s[1..];
    } else {
      TotalUpdate(s[1..], i - 1, m);
      assert s[i := m][1..] == s[1..][i - 1 := m];
    }
  }

  lemma ReclaimedSize(m: Entries)
    ensures |Reclaimed(m)| <= |m|
    ensures Pendings(Reclaimed(m)) == Pendings(m)
  {
    var kept := Reclaimed(m);
    assert m.Keys == kept.Keys + Terminals(m);
    assert |m| == |m.Keys| && |kept| == |kept.Keys|;
  }

  lemma PrunedIsNoLarger(m: Entries, cap: nat, t: Entries)
    requires Pruned(m, cap, t)
    ensures |t| <= |m|
  {
    var gone := m.Keys - t.Keys;
    assert m.Keys == t.Keys + gone;
    assert |m| == |m.Keys| && |t| == |t.Keys|;
  }

  /** An operation adds at most one entry to its ledger, and only an open adds any. */
  lemma NextSize(cap: nat, maxAttempts: nat, m: Entries, op: Op, now: int, t: Entries)
    requires Next(cap, maxAttempts, m, op, now, t)
    ensures |t| <= |m| + if op.Open? then 1 else 0
  {
    match op
    case Open(k, topic) =>
      if k != "" && k !in m {
        PrunedIsNoLarger(m[k := Opened(topic, now)], cap, t);
      }
    case RecordTopic(topic, rep) =>
      assert t.Keys == m.Keys;
      assert |m| == |m.Keys| && |t| == |t.Keys|;
    case Reclaim => ReclaimedSize(m);
    case _ =>
      assert t.Keys == m.Keys;
      assert |m| == |m.Keys| && |t| == |t.Keys|;
  }

  /** The node's budget holds through every operation on any of its roles. */
  lemma BudgetKept(
    nodeMax: nat, cap: nat, maxAttempts: nat, s: seq<Entries>, i: nat, op: Op, now: int, t: seq<Entries>)
    requires NodeNext(nodeMax, cap, maxAttempts, s, i, op, now, t) && Total(s) <= nodeMax
    ensures Total(t) <= nodeMax
  {
    hide Next, AllReclaimed;
    TotalOfReclaimed(s);
    if op.Open? {
      var base := Base(nodeMax, s);
      if Total(base) < nodeMax {
        NextSize(cap, maxAttempts, base[i], op, now, t[i]);
        TotalUpdate(base, i, t[i]);
      }
    } else {
      NextSize(cap, maxAttempts, s[i], op, now, t[i]);
      TotalUpdate(s, i, t[i]);
    }
  }

  /** No operation on one role alters another role's pending obligations, or adds or changes any entry of it. */
  lemma OtherRolesUntouched(
    nodeMax: nat, cap: nat, maxAttempts: nat, s: seq<Entries>, i: nat, op: Op, now: int, t: seq<Entries>, j: nat)
    requires NodeNext(nodeMax, cap, maxAttempts, s, i, op, now, t) && j < |s| && j != i
    ensures |t| == |s|
    ensures forall k :: k in s[j] && s[j][k].state == Pending ==> k in t[j] && t[j][k] == s[j][k]
    ensures forall k :: k in t[j] ==> k in s[j] && t[j][k] == s[j][k]
    ensures t[j] != s[j] ==> op.Open? && Total(s) >= nodeMax
  {
    hide Next, Total;
  }

  /** A role's own ledger takes the operation itself, after the reclaim an open at the ceiling asks for. */
  lemma OwnLedgerSteps(
    nodeMax: nat, cap: nat, maxAttempts: nat, s: seq<Entries>, i: nat, op: Op, now: int, t: seq<Entries>)
    requires NodeNext(nodeMax, cap, maxAttempts, s, i, op, now, t)
    ensures i < |s| == |t|
    ensures var m := if op.Open? then Base(nodeMax, s)[i] else s[i];
            && (m == s[i] || m == Reclaimed(s[i]))
            && (t[i] == m || Next(cap, maxAttempts, m, op, now, t[i]))
    ensures forall k :: k in s[i] && s[i][k].state == Pending ==> k in t[i]
  {
    hide Total;
    if op.Open? {
      var base := Base(nodeMax, s);
      if Total(base) < nodeMax {
        forall k | k in s[i] && s[i][k].state == Pending ensures k in t[i] {
          PendingIsKept(cap, maxAttempts, base[i], op, now, t[i], k);
        }
      }
    } else {
      forall k | k in s[i] && s[i][k].state == Pending ensures k in t[i] {
        PendingIsKept(cap, maxAttempts, s[i], op, now, t[i], k);
      }
    }
  }

  /** The obligations still pending on any of the node's roles. */
  function PendingTotal(s: seq<Entries>): nat {
    if s == [] then 0 else |Pendings(s[0])| + PendingTotal(s[1..])
  }

  lemma ReclaimedIsPending(m: Entries)
    ensures |Reclaimed(m)| == |Pendings(m)| <= |m|
  {
    StatesCount(m);
    var kept := Reclaimed(m);
    assert kept.Keys == Pendings(m);
    assert |kept| == |kept.Keys|;
  }

  lemma {:induction false} TotalOfReclaimed(s: seq<Entries>)
    ensures Total(AllReclaimed(s)) == PendingTotal(s) <= Total(s)
  {
    if s != [] {
      TotalOfReclaimed(s[1..]);
      assert AllReclaimed(s)[1..] == AllReclaimed(s[1..]);
      ReclaimedIsPending(s[0]);
    }
  }

  /** A new obligation is refused exactly when the pending ones of all roles together already fill the node's budget. */
  lemma OpenRefusedIffPendingFill(
    nodeMax: nat, cap: nat, maxAttempts: nat, s: seq<Entries>, i: nat, k: string, topic: int, now: int, t: seq<Entries>)
    requires NodeNext(nodeMax, cap, maxAttempts, s, i, Open(k, topic), now, t) && k != "" && k !in s[i]
    ensures i < |t|
    ensures k !in t[i] <==> PendingTotal(s) >= nodeMax
    ensures k in t[i] ==> t[i][k] == Opened(topic, now)
  {
    hide Next;
    TotalOfReclaimed(s);
    var base := Base(nodeMax, s);
    assert k !in base[i];
    if Total(base) < nodeMax {
      OpenTakesOldest(cap, maxAttempts, base[i], k, topic, now, t[i]);
    }
  }

  // ---- runs over roles that come and go ----

  /** An operation on a role, a role installed, or a role dropped with its ledger: its slot is then free for another. */
  datatype Step = Act(role: nat, op: Op, now: int) | Install | Remove(role: nat)

  ghost predicate Steps(nodeMax: nat, cap: nat, maxAttempts: nat, s: seq<Entries>, step: Step, t: seq<Entries>) {
    match step
    case Act(i, op, now) => NodeNext(nodeMax, cap, maxAttempts, s, i, op, now, t)
    case Install => t == s + [map[]]
    case Remove(i) => i < |s| && t == s[i := map[]]
  }

  ghost predicate NodeRun(nodeMax: nat, cap: nat, maxAttempts: nat, states: seq<seq<Entries>>, steps: seq<Step>) {
    && |states| == |steps| + 1
    && states[0] == []
    && forall n :: 0 <= n < |steps| ==> Steps(nodeMax, cap, maxAttempts, states[n], steps[n], states[n + 1])
  }

  lemma {:induction false} TotalInstalled(s: seq<Entries>)
    ensures Total(s + [map[]]) == Total(s)
  {
    if s != [] {
      TotalInstalled(s[1..]);
      assert (s + [map[]])[1..] == s[1..] + [map[]];
    }
  }

  /** Over any run the node's entries never exceed its budget. */
  lemma {:induction false} NodeBudget(
    nodeMax: nat, cap: nat, maxAttempts: nat, states: seq<seq<Entries>>, steps: seq<Step>, n: nat)
    requires NodeRun(nodeMax, cap, maxAttempts, states, steps) && n <= |steps|
    ensures Total(states[n]) <= nodeMax
  {
    hide NodeNext;
    if n > 0 {
      NodeBudget(nodeMax, cap, maxAttempts, states, steps, n - 1);
      var s := states[n - 1];
      assert Steps(nodeMax, cap, maxAttempts, s, steps[n - 1], states[n]);
      match steps[n - 1]
      case Act(i, op, now) => BudgetKept(nodeMax, cap, maxAttempts, s, i, op, now, states[n]);
      case Install => TotalInstalled(s);
      case Remove(i) => TotalUpdate(s, i, map[]);
    }
  }

  predicate ActsOn(step: Step, j: nat) {
    step.Act? && step.role == j
  }

  /** What a step does to one obligation of one role: nothing, or what the operation does to it in that role's own ledger. */
  lemma StepOnObligation(
    nodeMax: nat, cap: nat, maxAttempts: nat, s: seq<Entries>, step: Step, t: seq<Entries>, j: nat, k: string)
    requires Steps(nodeMax, cap, maxAttempts, s, step, t) && j < |s| && k in s[j] && s[j][k].state == Pending
    requires step != Remove(j)
    ensures j < |t| && k in t[j]
    ensures ActsOn(step, j) && !step.op.Open? ==> Next(cap, maxAttempts, s[j], step.op, step.now, t[j])
    ensures !ActsOn(step, j) || step.op.Open? ==> t[j][k] == s[j][k]
  {
    hide Total, Next, NodeNext;
    match step
    case Act(i, op, now) =>
      if i == j {
        OwnLedgerSteps(nodeMax, cap, maxAttempts, s, i, op, now, t);
        OwnEntrySteps(nodeMax, cap, maxAttempts, s, i, op, now, t, k);
      } else {
        OtherRolesUntouched(nodeMax, cap, maxAttempts, s, i, op, now, t, j);
      }
    case _ =>
  }

  lemma OpenKeepsEntry(cap: nat, maxAttempts: nat, m: Entries, op: Op, now: int, t: Entries, k: string)
    requires op.Open? && Next(cap, maxAttempts, m, op, now, t) && k in m && m[k].state == Pending
    ensures k in t && t[k] == m[k]
  {
  }

  lemma OwnEntrySteps(
    nodeMax: nat, cap: nat, maxAttempts: nat, s: seq<Entries>, i: nat, op: Op, now: int, t: seq<Entries>, k: string)
    requires NodeNext(nodeMax, cap, maxAttempts, s, i, op, now, t) && k in s[i] && s[i][k].state == Pending
    ensures !op.Open? ==> Next(cap, maxAttempts, s[i], op, now, t[i])
    ensures op.Open? ==> k in t[i] && t[i][k] == s[i][k]
  {
    hide Total, Next;
    if op.Open? && Total(Base(nodeMax, s)) < nodeMax {
      OpenKeepsEntry(cap, maxAttempts, Base(nodeMax, s)[i], op, now, t[i], k);
    }
  }

  /** An obligation pending at some point stays as it is through any steps on other roles. */
  lemma {:induction false} PendingOutlivesOthers(
    nodeMax: nat, cap: nat, maxAttempts: nat, states: seq<seq<Entries>>, steps: seq<Step>, j: nat, k: string, p: nat, q: nat)
    requires NodeRun(nodeMax, cap, maxAttempts, states, steps) && p <= q <= |steps|
    requires j < |states[p]| && k in states[p][j] && states[p][j][k].state == Pending
    requires forall n :: p <= n < q ==> !ActsOn(steps[n], j) && steps[n] != Remove(j)
    ensures j < |states[q]| && k in states[q][j] && states[q][j][k] == states[p][j][k]
    decreases q
  {
    hide Steps;
    if p < q {
      PendingOutlivesOthers(nodeMax, cap, maxAttempts, states, steps, j, k, p, q - 1);
      StepOnObligation(nodeMax, cap, maxAttempts, states[q - 1], steps[q - 1], states[q], j, k);
    }
  }

  /** Across the whole node a message becomes verified only by evidence on its own role. */
  lemma VerifiedOnlyByOwnEvidence(
    nodeMax: nat, cap: nat, maxAttempts: nat, states: seq<seq<Entries>>, steps: seq<Step>, n: nat, j: nat, k: string)
    requires NodeRun(nodeMax, cap, maxAttempts, states, steps) && n < |steps| && steps[n] != Remove(j)
    requires j < |states[n]| && k in states[n][j] && states[n][j][k].state == Pending
    ensures j < |states[n + 1]| && k in states[n + 1][j]
    ensures states[n + 1][j][k].state == Verified <==>
            && ActsOn(steps[n], j) && SpeaksFor(steps[n].op, k, states[n][j][k])
            && steps[n].op.rep.dispatched && steps[n].op.rep.snapshot && !steps[n].op.rep.noCohort
            && steps[n].op.rep.verified > 0
  {
    hide Next, Steps;
    var s, t := states[n], states[n + 1];
    StepOnObligation(nodeMax, cap, maxAttempts, s, steps[n], t, j, k);
    if ActsOn(steps[n], j) && !steps[n].op.Open? {
      VerifiedOnlyByEvidence(cap, maxAttempts, s[j], steps[n].op, steps[n].now, t[j], k);
    }
  }

  lemma OwnTerminalSteps(
    nodeMax: nat, cap: nat, maxAttempts: nat, s: seq<Entries>, i: nat, op: Op, now: int, t: seq<Entries>, k: string)
    requires NodeNext(nodeMax, cap, maxAttempts, s, i, op, now, t)
    requires k in s[i] && s[i][k].state != Pending && k in t[i]
    ensures t[i][k] == s[i][k] || (op.Open? && op.msgId == k && t[i][k] == Opened(op.topic, now))
  {
    hide Total;
  }

  /** Across the whole node a verdict is final: the entry stays as it is or goes, and only a new open takes its place. */
  lemma VerdictIsFinal(
    nodeMax: nat, cap: nat, maxAttempts: nat, states: seq<seq<Entries>>, steps: seq<Step>, n: nat, j: nat, k: string)
    requires NodeRun(nodeMax, cap, maxAttempts, states, steps) && n < |steps| && j < |states[n]|
    requires k in states[n][j] && states[n][j][k].state != Pending
    ensures j < |states[n + 1]|
    ensures k in states[n + 1][j] ==>
              || states[n + 1][j][k] == states[n][j][k]
              || (ActsOn(steps[n], j) && steps[n].op.Open? && steps[n].op.msgId == k &&
                  states[n + 1][j][k] == Opened(steps[n].op.topic, steps[n].now))
  {
    hide NodeNext;
    var s, t := states[n], states[n + 1];
    assert Steps(nodeMax, cap, maxAttempts, s, steps[n], t);
    match steps[n]
    case Act(i, op, now) =>
      if i == j {
        OwnLedgerSteps(nodeMax, cap, maxAttempts, s, i, op, now, t);
        if k in t[j] {
          OwnTerminalSteps(nodeMax, cap, maxAttempts, s, i, op, now, t, k);
        }
      } else {
        OtherRolesUntouched(nodeMax, cap, maxAttempts, s, i, op, now, t, j);
      }
    case _ =>
  }

  // ---- attempts across the node ----

  ghost predicate AllWithinBudget(maxAttempts: nat, s: seq<Entries>) {
    forall i :: 0 <= i < |s| ==> WithinBudget(maxAttempts, s[i])
  }

  lemma ReclaimedWithinBudget(maxAttempts: nat, s: seq<Entries>, nodeMax: nat)
    requires AllWithinBudget(maxAttempts, s)
    ensures AllWithinBudget(maxAttempts, Base(nodeMax, s))
  {
    hide Total;
  }

  lemma {:induction false} NodeWithinBudget(
    nodeMax: nat, cap: nat, maxAttempts: nat, states: seq<seq<Entries>>, steps: seq<Step>, n: nat)
    requires NodeRun(nodeMax, cap, maxAttempts, states, steps) && n <= |steps|
    ensures AllWithinBudget(maxAttempts, states[n])
  {
    hide Next, WithinBudget, Total, AllReclaimed;
    if n > 0 {
      NodeWithinBudget(nodeMax, cap, maxAttempts, states, steps, n - 1);
      var s, t := states[n - 1], states[n];
      assert Steps(nodeMax, cap, maxAttempts, s, steps[n - 1], t);
      match steps[n - 1]
      case Act(i, op, now) =>
        ReclaimedWithinBudget(maxAttempts, s, nodeMax);
        var m := if op.Open? then Base(nodeMax, s) else s;
        if t != m {
          AttemptsWithinBudget(cap, maxAttempts, m[i], op, now, t[i]);
        }
      case _ => EmptyWithinBudget(maxAttempts);
    }
  }

  lemma EmptyWithinBudget(maxAttempts: nat)
    ensures WithinBudget(maxAttempts, map[])
  {
  }

  ghost predicate PendingIn(states: seq<seq<Entries>>, j: nat, k: string, p: nat, q: nat) {
    forall n :: p <= n <= q && n < |states| ==> IsPending(states[n], j, k)
  }

  ghost predicate IsPending(s: seq<Entries>, j: nat, k: string) {
    j < |s| && k in s[j] && s[j][k].state == Pending
  }

  /** The evidence on one role that speaks for one of its messages. */
  ghost function EvidenceIn(states: seq<seq<Entries>>, steps: seq<Step>, j: nat, k: string, p: nat, q: nat): nat
    requires p <= q <= |steps| && |states| == |steps| + 1
    decreases q
  {
    if q == p then 0
    else EvidenceIn(states, steps, j, k, p, q - 1) +
         if IsPending(states[q - 1], j, k) && IsEvidence(states[q - 1], steps[q - 1], j, k) then 1 else 0
  }

  ghost predicate IsEvidence(s: seq<Entries>, step: Step, j: nat, k: string)
    requires IsPending(s, j, k)
  {
    ActsOn(step, j) && SpeaksFor(step.op, k, s[j][k]) && Classify(step.op.rep) == Evidence
  }

  /** While a message stays pending its attempts grow by exactly the evidence given to its own role. */
  lemma {:induction false} AttemptsAreOwnEvidence(
    nodeMax: nat, cap: nat, maxAttempts: nat, states: seq<seq<Entries>>, steps: seq<Step>, j: nat, k: string, p: nat, q: nat)
    requires NodeRun(nodeMax, cap, maxAttempts, states, steps) && p <= q <= |steps| && PendingIn(states, j, k, p, q)
    ensures IsPending(states[p], j, k) && IsPending(states[q], j, k)
    ensures states[q][j][k].attempts == states[p][j][k].attempts + EvidenceIn(states, steps, j, k, p, q)
    decreases q
  {
    hide Next, SpeaksFor, NodeNext;
    if p < q {
      AttemptsAreOwnEvidence(nodeMax, cap, maxAttempts, states, steps, j, k, p, q - 1);
      var s, step, t := states[q - 1], steps[q - 1], states[q];
      assert IsPending(s, j, k) && IsPending(t, j, k);
      assert Steps(nodeMax, cap, maxAttempts, s, step, t);
      StepOnObligation(nodeMax, cap, maxAttempts, s, step, t, j, k);
      if ActsOn(step, j) {
        if step.op.Open? {
          OpenSpeaksForNone(step.op, k, s[j][k]);
        } else {
          OnlyEvidenceBurnsAttempts(cap, maxAttempts, s[j], step.op, step.now, t[j], k);
        }
      }
    }
  }

  lemma OpenSpeaksForNone(op: Op, k: string, e: Entry)
    requires op.Open?
    ensures !SpeaksFor(op, k, e)
  {
  }

  /** On a node of any roles, a message still pending has had fewer evidence records on its own role than the budget, or none. */
  lemma EvidencePerRole(
    nodeMax: nat, cap: nat, maxAttempts: nat, states: seq<seq<Entries>>, steps: seq<Step>, j: nat, k: string, p: nat, q: nat)
    requires NodeRun(nodeMax, cap, maxAttempts, states, steps) && p <= q <= |steps| && PendingIn(states, j, k, p, q)
    ensures EvidenceIn(states, steps, j, k, p, q) == 0 || EvidenceIn(states, steps, j, k, p, q) < maxAttempts
  {
    AttemptsAreOwnEvidence(nodeMax, cap, maxAttempts, states, steps, j, k, p, q);
    NodeWithinBudget(nodeMax, cap, maxAttempts, states, steps, q);
  }

  // ---- a role that is not listed ----

  /** An operation on a role this node does not list: its own ledger takes it, at the listed roles' ceiling if it is an open. */
  ghost predicate UnlistedNext(
    nodeMax: nat, cap: nat, maxAttempts: nat, s: seq<Entries>, own: Entries, op: Op, now: int, t: seq<Entries>,
    ownAfter: Entries)
  {
    && t == (if op.Open? then Base(nodeMax, s) else s)
    && if op.Open? && Total(t) >= nodeMax then ownAfter == own else Next(cap, maxAttempts, own, op, now, ownAfter)
  }

  /** It adds nothing to what the node counts, and leaves every pending obligation of the listed roles as it is. */
  lemma UnlistedLeavesNode(
    nodeMax: nat, cap: nat, maxAttempts: nat, s: seq<Entries>, own: Entries, op: Op, now: int, t: seq<Entries>,
    ownAfter: Entries)
    requires UnlistedNext(nodeMax, cap, maxAttempts, s, own, op, now, t, ownAfter)
    ensures |t| == |s| && Total(t) <= Total(s)
    ensures forall j, k :: 0 <= j < |s| && k in s[j] && s[j][k].state == Pending ==> k in t[j] && t[j][k] == s[j][k]
  {
    hide Next;
    TotalOfReclaimed(s);
  }

  /** An open on it is refused as on any role: exactly when the listed roles' pending obligations fill the node's budget. */
  lemma UnlistedRefusedIffPendingFill(
    nodeMax: nat, cap: nat, maxAttempts: nat, s: seq<Entries>, own: Entries, k: string, topic: int, now: int,
    t: seq<Entries>, ownAfter: Entries)
    requires UnlistedNext(nodeMax, cap, maxAttempts, s, own, Open(k, topic), now, t, ownAfter) && k != "" && k !in own
    ensures k !in ownAfter <==> PendingTotal(s) >= nodeMax
    ensures t != s ==> Total(s) >= nodeMax
    ensures k in ownAfter ==> ownAfter[k] == Opened(topic, now)
  {
    hide Next;
    TotalOfReclaimed(s);
    if Total(t) < nodeMax {
      OpenTakesOldest(cap, maxAttempts, own, k, topic, now, ownAfter);
    }
  }

  // ---- the facade over role objects ----

  class Role {
    const topicId: int
    var durability: DurabilityLedger?

    constructor (topicId: int)
      ensures this.topicId == topicId && durability == null
    {
      this.topicId := topicId;
      durability := null;
    }
  }

  /** A role's ledger; a role without one has no entries. */
  function Held(r: Role): Entries
    reads r, r.durability
  {
    if r.durability == null then map[] else r.durability.m
  }

  function LedgersOf(roles: seq<Role>): set<object>
    reads roles
  {
    set r | r in roles && r.durability != null :: r.durability
  }

  ghost function Snapshot(roles: seq<Role>): (s: seq<Entries>)
    reads roles, LedgersOf(roles)
    ensures |s| == |roles| && forall i :: 0 <= i < |roles| ==> s[i] == Held(roles[i])
  {
    if roles == [] then [] else [Held(roles[0])] + Snapshot(roles[1..])
  }

  class RoleScopedDurability {
    const nodeMax: nat
    const perRoleMax: nat
    const maxAttempts: nat
    /** This node's roles. */
    var roles: seq<Role>

    /** Roles are listed once, and no ledger is shared. */
    ghost predicate Valid()
      reads this, roles, LedgersOf(roles)
    {
      && (forall i, j :: 0 <= i < j < |roles| ==> roles[i] != roles[j])
      && (forall r :: r in roles && r.durability != null ==>
            r.durability.cap == perRoleMax && r.durability.maxAttempts == maxAttempts)
      && (forall r, q :: r in roles && q in roles && r != q && r.durability != null ==> r.durability != q.durability)
    }

    constructor (nodeMax: nat, perRoleMax: nat, maxAttempts: nat, roles: seq<Role>)
      requires forall i, j :: 0 <= i < j < |roles| ==> roles[i] != roles[j]
      requires forall r :: r in roles ==> r.durability == null
      ensures Valid() && this.roles == roles
      ensures this.nodeMax == nodeMax && this.perRoleMax == perRoleMax && this.maxAttempts == maxAttempts
    {
      this.nodeMax, this.perRoleMax, this.maxAttempts, this.roles := nodeMax, perRoleMax, maxAttempts, roles;
    }

    /** A role that is listed, or whose ledger is of this facade's making and no listed role's. */
    ghost predicate Serves(role: Role)
      reads this, roles, LedgersOf(roles), role, role.durability
    {
      role in roles || role.durability == null ||
      (&& role.durability.cap == perRoleMax && role.durability.maxAttempts == maxAttempts
       && forall r :: r in roles ==> r.durability != role.durability)
    }

    /** What an operation on a role comes to, from the node's entries and the role's own before it. */
    ghost predicate Stepped(role: Role, s: seq<Entries>, own: Entries, op: Op, now: int)
      reads this, roles, LedgersOf(roles), role, role.durability
    {
      if role in roles then
        forall i :: 0 <= i < |roles| && roles[i] == role ==>
          NodeNext(nodeMax, perRoleMax, maxAttempts, s, i, op, now, Snapshot(roles))
      else UnlistedNext(nodeMax, perRoleMax, maxAttempts, s, own, op, now, Snapshot(roles), Held(role))
    }

    /** `_ledger`: the role's own ledger, made when missing. */
    method LedgerOf(role: Role) returns (ledger: DurabilityLedger)
      requires Valid() && Serves(role)
      modifies role
      ensures Valid() && Serves(role) && role.durability == ledger
      ensures ledger.cap == perRoleMax && ledger.maxAttempts == maxAttempts
      ensures ledger == old(role.durability) || (old(role.durability) == null && fresh(ledger))
      ensures Held(role) == old(Held(role)) && Snapshot(roles) == old(Snapshot(roles))
    {
      hide Snapshot;
      if role.durability == null {
        role.durability := new DurabilityLedger(perRoleMax, maxAttempts);
      }
      ledger := role.durability;
    }

    method NodeSize() returns (n: nat)
      requires Valid()
      ensures n == Total(Snapshot(roles))
    {
      n := 0;
      ghost var s := Snapshot(roles);
      for i := 0 to |roles|
        invariant n + Total(s[i..]) == Total(s)
      {
        assert s[i..][1..] == s[i + 1..];
        if roles[i].durability != null {
          n := n + |roles[i].durability.m|;
        }
      }
      assert s[|roles|..] == [];
    }

    method ReclaimAll()
      requires Valid()
      modifies LedgersOf(roles)
      ensures Valid() && Snapshot(roles) == AllReclaimed(old(Snapshot(roles)))
    {
      hide Next, Snapshot, Reclaimed, AllReclaimed, Terminals;
      ghost var s := Snapshot(roles);
      for i := 0 to |roles|
        invariant Valid()
        invariant forall j :: 0 <= j < i ==> Held(roles[j]) == Reclaimed(s[j])
        invariant forall j :: i <= j < |roles| ==> Held(roles[j]) == s[j]
      {
        if roles[i].durability != null {
          ghost var before := Held(roles[i]);
          var n := roles[i].durability.ReclaimTerminal();
          ReclaimIsNext(perRoleMax, maxAttempts, before, Held(roles[i]));
        } else {
          NothingReclaimed();
        }
      }
    }

    /** Makes room when the node is at its ceiling: false when it is full of live obligations. */
    method Admit() returns (ok: bool)
      requires Valid()
      modifies LedgersOf(roles)
      ensures Valid() && Snapshot(roles) == Base(nodeMax, old(Snapshot(roles)))
      ensures ok <==> Total(Snapshot(roles)) < nodeMax
    {
      hide Next, Total, AllReclaimed, Snapshot;
      var size := NodeSize();
      if size >= nodeMax {
        ReclaimAll();
        size := NodeSize();
      }
      return size < nodeMax;
    }

    /** The role's own ledger has taken an operation other than an open, and nothing else has moved. */
    ghost method OwnLedgerMoved(role: Role, s: seq<Entries>, own: Entries, op: Op, now: int)
      requires Valid() && |s| == |roles| && !op.Open?
      requires Next(perRoleMax, maxAttempts, own, op, now, Held(role))
      requires forall i :: 0 <= i < |roles| ==>
                 if roles[i] == role then s[i] == own else s[i] == Held(roles[i])
      ensures Stepped(role, s, own, op, now)
    {
      hide Next, Total, Snapshot, NodeNext;
      var t := Snapshot(roles);
      forall i | 0 <= i < |roles| && roles[i] == role
        ensures NodeNext(nodeMax, perRoleMax, maxAttempts, s, i, op, now, t)
      {
        assert t == s[i := t[i]];
        OwnStep(nodeMax, perRoleMax, maxAttempts, s, i, op, now, t);
      }
      if role !in roles {
        assert t == s;
      }
    }

    method OpenIn(role: Role, ledger: DurabilityLedger, msgId: string, now: int)
      requires Valid() && Serves(role) && role.durability == ledger
      modifies ledger
      ensures Valid() && Serves(role)
      ensures Next(perRoleMax, maxAttempts, old(Held(role)), Op.Open(msgId, role.topicId), now, Held(role))
      ensures forall r :: r in roles && r != role ==> Held(r) == old(Held(r))
    {
      hide Next, Snapshot;
      ledger.Open(msgId, role.topicId, now);
    }

    /** The open of a role has gone to its own ledger, or nowhere, from the entries `base` the ceiling left. */
    ghost method OpenMoved(role: Role, s: seq<Entries>, own: Entries, base: seq<Entries>, left: Entries, op: Op, now: int)
      requires Valid() && |s| == |roles| && op.Open? && base == Base(nodeMax, s)
      requires role !in roles ==> left == own
      requires forall i :: 0 <= i < |roles| && roles[i] == role ==> base[i] == left
      requires if Total(base) >= nodeMax then Held(role) == left
               else Next(perRoleMax, maxAttempts, left, op, now, Held(role))
      requires forall i :: 0 <= i < |roles| && roles[i] != role ==> base[i] == Held(roles[i])
      ensures Stepped(role, s, own, op, now)
    {
      hide Next, Total, Snapshot, NodeNext, AllReclaimed;
      var t := Snapshot(roles);
      if role in roles {
        forall i | 0 <= i < |roles| && roles[i] == role
          ensures NodeNext(nodeMax, perRoleMax, maxAttempts, s, i, op, now, t)
        {
          assert t == base[i := t[i]];
          OpenStep(nodeMax, perRoleMax, maxAttempts, s, i, op, now, t);
        }
      } else {
        assert t == base;
      }
    }

    /** `open`. */
    method Open(role: Role, msgId: string, now: int)
      requires Valid() && Serves(role)
      modifies role, role.durability, LedgersOf(roles)
      ensures Valid() && Serves(role)
      ensures Stepped(role, old(Snapshot(roles)), old(Held(role)), Op.Open(msgId, role.topicId), now)
    {
      hide Next, Total, AllReclaimed, Snapshot, NodeNext, Base, Reclaimed, Stepped;
      ghost var s, own := Snapshot(roles), Held(role);
      var ledger := LedgerOf(role);
      var ok := Admit();
      ghost var base, left := Snapshot(roles), Held(role);
      if ok {
        OpenIn(role, ledger, msgId, now);
      }
      OpenMoved(role, s, own, base, left, Op.Open(msgId, role.topicId), now);
    }

    method RecordOne(role: Role, msgId: string, rep: Rep, now: int) returns (state: Option<Status>)
      requires Valid() && Serves(role)
      modifies role, role.durability, LedgersOf(roles)
      ensures Valid() && Serves(role)
      ensures Stepped(role, old(Snapshot(roles)), old(Held(role)), Op.RecordOne(msgId, rep), now)
      ensures state == if msgId in Held(role) then Some(Held(role)[msgId].state) else None
    {
      hide Next, Total, Snapshot, NodeNext, Tally;
      ghost var s, own := Snapshot(roles), Held(role);
      var ledger := LedgerOf(role);
      state := ledger.RecordOne(msgId, rep, now);
      OwnLedgerMoved(role, s, own, Op.RecordOne(msgId, rep), now);
    }

    method RecordTopic(role: Role, rep: Rep, now: int) returns (verified: nat, expired: nat, pending: nat)
      requires Valid() && Serves(role)
      modifies role, role.durability, LedgersOf(roles)
      ensures Valid() && Serves(role)
      ensures Stepped(role, old(Snapshot(roles)), old(Held(role)), Op.RecordTopic(role.topicId, rep), now)
      ensures var was, topic := old(Held(role)), role.topicId;
              && verified == Tally(was, Held(role), topic, was.Keys, Verified)
              && expired == Tally(was, Held(role), topic, was.Keys, Expired)
              && pending == Tally(was, Held(role), topic, was.Keys, Pending)
    {
      hide Next, Total, Snapshot, NodeNext, Tally;
      ghost var s, own := Snapshot(roles), Held(role);
      var ledger := LedgerOf(role);
      verified, expired, pending := ledger.RecordTopic(role.topicId, rep, now);
      OwnLedgerMoved(role, s, own, Op.RecordTopic(role.topicId, rep), now);
    }

    method NoCohortConfigured(role: Role, msgId: string, now: int)
      requires Valid() && Serves(role)
      modifies role, role.durability, LedgersOf(roles)
      ensures Valid() && Serves(role)
      ensures Stepped(role, old(Snapshot(roles)), old(Held(role)), Op.NoCohortConfigured(msgId), now)
    {
      hide Next, Total, Snapshot, NodeNext, Tally;
      ghost var s, own := Snapshot(roles), Held(role);
      var ledger := LedgerOf(role);
      ledger.NoCohortConfigured(msgId, now);
      OwnLedgerMoved(role, s, own, Op.NoCohortConfigured(msgId), now);
    }

    method Cancel(role: Role, msgId: string, now: int)
      requires Valid() && Serves(role)
      modifies role, role.durability, LedgersOf(roles)
      ensures Valid() && Serves(role)
      ensures Stepped(role, old(Snapshot(roles)), old(Held(role)), Op.Cancel(msgId), now)
    {
      hide Next, Total, Snapshot, NodeNext, Tally;
      ghost var s, own := Snapshot(roles), Held(role);
      var ledger := LedgerOf(role);
      ledger.Cancel(msgId, now);
      OwnLedgerMoved(role, s, own, Op.Cancel(msgId), now);
    }
  }

  lemma OwnStep(
    nodeMax: nat, cap: nat, maxAttempts: nat, s: seq<Entries>, i: nat, op: Op, now: int, t: seq<Entries>)
    requires !op.Open? && i < |s| == |t| && t == s[i := t[i]] && Next(cap, maxAttempts, s[i], op, now, t[i])
    ensures NodeNext(nodeMax, cap, maxAttempts, s, i, op, now, t)
  {
    hide Next;
  }

  lemma OpenStep(
    nodeMax: nat, cap: nat, maxAttempts: nat, s: seq<Entries>, i: nat, op: Op, now: int, t: seq<Entries>)
    requires op.Open? && i < |s| == |t|
    requires var base := Base(nodeMax, s);
             if Total(base) >= nodeMax then t == base
             else t == base[i := t[i]] && Next(cap, maxAttempts, base[i], op, now, t[i])
    ensures NodeNext(nodeMax, cap, maxAttempts, s, i, op, now, t)
  {
    hide Next;
  }

  lemma ReclaimIsNext(cap: nat, maxAttempts: nat, m: Entries, t: Entries)
    requires Next(cap, maxAttempts, m, Reclaim, 0, t)
    ensures t == Reclaimed(m)
  {
  }

  lemma NothingReclaimed()
    ensures Reclaimed(map[]) == map[]
  {
  }
}
