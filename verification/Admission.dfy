/** The table behind the gate: decision, commit, and the lane kept open for newcomers. */
module Admission {

  import opened Counting
  import opened Gate
  import opened GateRuns
  import opened Identity
  import opened KeySpace
  import opened Nearest
  import opened Options

  // ---- the join lane ----

  /** What the lane's bookkeeping knows of the admissions made through it. */
  ghost predicate LaneHistory(
    cfg: GateConfig, lanes: seq<LaneAdmission>, seen: map<string, int>, lastAt: int, prunedAt: int)
  {
    && LanePaced(cfg, lanes)
    && (lanes != [] ==> lastAt == lanes[|lanes| - 1].at <= prunedAt)
    && (forall k :: k in seen ==> LaneAdmission(k, seen[k]) in lanes)
    && (forall k :: k in seen ==> prunedAt - seen[k] < cfg.laneWindowMs || seen[k] == prunedAt)
    && (forall a :: a in lanes ==> prunedAt - a.at >= cfg.laneWindowMs || (a.key in seen && seen[a.key] >= a.at))
  }

  /** One admission an identity a window, and a cooldown between any two. */
  ghost predicate LanePaced(cfg: GateConfig, lanes: seq<LaneAdmission>) {
    && (forall i, j :: 0 <= i < j < |lanes| ==> lanes[j].at - lanes[i].at >= cfg.laneCooldownMs)
    && (forall i, j :: 0 <= i < j < |lanes| && lanes[i].key == lanes[j].key ==>
          lanes[j].at - lanes[i].at >= cfg.laneWindowMs)
  }

  function InWindow(cfg: GateConfig, seen: map<string, int>, now: int): map<string, int> {
    map k | k in seen && now - seen[k] < cfg.laneWindowMs :: seen[k]
  }

  lemma LanePruned(
    cfg: GateConfig, lanes: seq<LaneAdmission>, seen: map<string, int>, lastAt: int, prunedAt: int, now: int)
    requires LaneHistory(cfg, lanes, seen, lastAt, prunedAt) && prunedAt <= now
    ensures LaneHistory(cfg, lanes, InWindow(cfg, seen, now), lastAt, now)
  {
    hide LanePaced;
  }

  /** The lane takes this admission now. */
  ghost predicate LaneTakes(
    cfg: GateConfig, seen: map<string, int>, lastAt: int, prunedAt: int, key: string, at: int)
  {
    key !in seen && at == prunedAt && at - lastAt >= cfg.laneCooldownMs
  }

  /** The lane keeps its pace when the new admission is a cooldown from the last and the identity's own are a window old. */
  lemma LanePacedNext(cfg: GateConfig, lanes: seq<LaneAdmission>, a: LaneAdmission)
    requires LanePaced(cfg, lanes)
    requires lanes != [] ==> a.at - lanes[|lanes| - 1].at >= cfg.laneCooldownMs
    requires forall i :: 0 <= i < |lanes| && lanes[i].key == a.key ==> a.at - lanes[i].at >= cfg.laneWindowMs
    ensures LanePaced(cfg, lanes + [a])
  {
    var after := lanes + [a];
    forall i, j | 0 <= i < j < |after|
      ensures after[j].at - after[i].at >= cfg.laneCooldownMs
      ensures after[i].key == after[j].key ==> after[j].at - after[i].at >= cfg.laneWindowMs
    {
      if j == |lanes| {
        assert lanes[i].at <= lanes[|lanes| - 1].at;
      }
    }
  }

  lemma LaneAdmitted(
    cfg: GateConfig, lanes: seq<LaneAdmission>, seen: map<string, int>, lastAt: int, prunedAt: int, key: string)
    requires LaneHistory(cfg, lanes, seen, lastAt, prunedAt)
    requires LaneTakes(cfg, seen, lastAt, prunedAt, key, prunedAt)
    ensures LaneHistory(cfg, lanes + [LaneAdmission(key, prunedAt)], seen[key := prunedAt], prunedAt, prunedAt)
  {
    LaneStaysPaced(cfg, lanes, seen, lastAt, prunedAt, key);
    LaneRemembers(cfg, lanes, seen, lastAt, prunedAt, key);
  }

  lemma LaneStaysPaced(
    cfg: GateConfig, lanes: seq<LaneAdmission>, seen: map<string, int>, lastAt: int, prunedAt: int, key: string)
    requires LaneHistory(cfg, lanes, seen, lastAt, prunedAt)
    requires LaneTakes(cfg, seen, lastAt, prunedAt, key, prunedAt)
    ensures LanePaced(cfg, lanes + [LaneAdmission(key, prunedAt)])
  {
    hide LanePaced;
    forall i | 0 <= i < |lanes| && lanes[i].key == key ensures prunedAt - lanes[i].at >= cfg.laneWindowMs {
      assert lanes[i] in lanes;
    }
    LanePacedNext(cfg, lanes, LaneAdmission(key, prunedAt));
  }

  lemma LaneRemembers(
    cfg: GateConfig, lanes: seq<LaneAdmission>, seen: map<string, int>, lastAt: int, prunedAt: int, key: string)
    requires LaneHistory(cfg, lanes, seen, lastAt, prunedAt) && key !in seen
    requires LanePaced(cfg, lanes + [LaneAdmission(key, prunedAt)])
    ensures LaneHistory(cfg, lanes + [LaneAdmission(key, prunedAt)], seen[key := prunedAt], prunedAt, prunedAt)
  {
    hide LanePaced;
    var a := LaneAdmission(key, prunedAt);
    var after, remembered := lanes + [a], seen[key := prunedAt];
    forall k | k in remembered ensures LaneAdmission(k, remembered[k]) in after {
      if k == key {
        assert after[|lanes|] == a;
      } else {
        assert LaneAdmission(k, seen[k]) in lanes;
      }
    }
    assert forall b :: b in after ==> b in lanes || b == a;
  }

  /** The identity was admitted through the lane later than `low`. */
  ghost predicate Late(lanes: seq<LaneAdmission>, low: int, k: string) {
    exists i :: 0 <= i < |lanes| && lanes[i].key == k && lanes[i].at > low
  }

  lemma LateEarlier(cfg: GateConfig, lanes: seq<LaneAdmission>, low: int, k: string)
    requires LanePaced(cfg, lanes) && Late(lanes, low, k)
    ensures lanes != [] && lanes[|lanes| - 1].at > low
    ensures k != lanes[|lanes| - 1].key ==> Late(lanes[..|lanes| - 1], low, k)
    ensures LanePaced(cfg, lanes[..|lanes| - 1])
    ensures |lanes| >= 2 ==> lanes[|lanes| - 1].at - lanes[|lanes| - 2].at >= cfg.laneCooldownMs
  {
    var i :| 0 <= i < |lanes| && lanes[i].key == k && lanes[i].at > low;
    if i < |lanes| - 1 {
      assert lanes[..|lanes| - 1][i] == lanes[i];
    }
  }

  lemma {:induction false} LaneKeysBound(cfg: GateConfig, lanes: seq<LaneAdmission>, keys: set<string>, low: int)
    requires LanePaced(cfg, lanes) && keys != {}
    requires forall k :: k in keys ==> Late(lanes, low, k)
    ensures lanes != [] && Repeated(cfg.laneCooldownMs, |keys| - 1) < lanes[|lanes| - 1].at - low
  {
    hide LanePaced, Late, Repeated;
    var k :| k in keys;
    LateEarlier(cfg, lanes, low, k);
    var last, init := lanes[|lanes| - 1], lanes[..|lanes| - 1];
    var rest := keys - {last.key};
    forall k | k in rest ensures Late(init, low, k) {
      LateEarlier(cfg, lanes, low, k);
    }
    RepeatedNone(cfg.laneCooldownMs);
    assert keys == rest + if last.key in keys then {last.key} else {};
    if rest != {} {
      LaneKeysBound(cfg, init, rest, low);
      RepeatedGrows(cfg.laneCooldownMs, |rest|, |keys|);
    }
  }

  lemma RepeatedNone(n: nat)
    ensures Repeated(n, 0) == 0
  {
  }

  lemma RepeatedGrows(n: nat, i: nat, j: nat)
    ensures i >= 1 && j <= i + 1 && j >= 1 ==> Repeated(n, j - 1) <= n + Repeated(n, i - 1)
  {
    if i >= 1 && 1 <= j <= i {
      RepeatedMonotone(n, j - 1, i - 1);
    }
  }

  lemma KeysCount(seen: map<string, int>)
    ensures |seen.Keys| == |seen|
  {
  }

  /** The lane remembers no more identities than fit in a window at the cooldown's pace. */
  lemma LaneSeenBound(
    cfg: GateConfig, lanes: seq<LaneAdmission>, seen: map<string, int>, lastAt: int, prunedAt: int)
    requires LaneHistory(cfg, lanes, seen, lastAt, prunedAt) && cfg.laneWindowMs > 0 && |seen| > 0
    ensures Repeated(cfg.laneCooldownMs, |seen| - 1) < cfg.laneWindowMs
  {
    var low := prunedAt - cfg.laneWindowMs;
    hide LanePaced, Repeated;
    forall k | k in seen.Keys ensures Late(lanes, low, k) {
      var i :| 0 <= i < |lanes| && lanes[i] == LaneAdmission(k, seen[k]);
      assert lanes[i].at > low;
    }
    KeysCount(seen);
    LaneKeysBound(cfg, lanes, seen.Keys, low);
  }

  // ---- the table ----

  lemma SwapIsGateSwap(
    cfg: GateConfig, self: Id, cap: nat, entries: seq<Id>, around: Surroundings, vitality: Id -> real,
    sponsor: Id, victim: Id)
    requires Distinct(entries) && |entries| >= cap && cfg.kNear >= 1 && sponsor !in entries
    requires IsVictim(cfg, self, entries, |entries|, around, vitality, sponsor, victim) && victim !in around.duties
    ensures GateSwap(cfg, self, cap, around, Members(entries), sponsor, victim)
    ensures Members(Without(entries, victim) + [sponsor]) == Swapped(Members(entries), sponsor, victim)
    ensures |Without(entries, victim) + [sponsor]| == |entries|
  {
    hide Evictable;
    MembersCount(entries);
    WithoutFacts(entries, victim);
    assert sponsor !in Members(entries);
    assert sponsor !in Members(Without(entries, victim));
    Appended(Without(entries, victim), sponsor);
    MembersCount(Without(entries, victim) + [sponsor]);
    InTable(cfg, self, cap, around, Members(entries), sponsor, victim);
    SwapKeepsSize(Members(entries), sponsor, victim);
  }

  /** The peer is held for a reason, with the sponsor ranked in. */
  ghost predicate HasReason(cfg: GateConfig, self: Id, ids: set<Id>, around: Surroundings, sponsor: Id, e: Id) {
    var r := ReasonsFor(cfg, self, ids, around, Some(sponsor), e);
    r.near || r.band || r.service || r.duty
  }

  lemma NoReasonToGo(
    cfg: GateConfig, self: Id, cap: nat, around: Surroundings, ids: set<Id>, sponsor: Id, victim: Id)
    requires GateSwap(cfg, self, cap, around, ids, sponsor, victim)
    ensures !HasReason(cfg, self, ids, around, sponsor, victim)
  {
    SwapSparesTheHeld(cfg, self, cap, around, ids, sponsor, victim);
  }

  class Table {
    const self: Id
    const cap: nat
    const cfg: GateConfig
    var synaptome: seq<Id>
    var connections: set<Id>
    var laneSeen: map<string, int>
    var laneLastAt: int
    var clock: int
    /** Every admission through the lane, and when its memory was last pruned. */
    ghost var lanes: seq<LaneAdmission>
    ghost var prunedAt: int

    ghost predicate Valid()
      reads this
    {
      && Distinct(synaptome)
      && prunedAt <= clock
      && LaneHistory(cfg, lanes, laneSeen, laneLastAt, prunedAt)
    }

    constructor (self: Id, cap: nat, cfg: GateConfig, synaptome: seq<Id>, connections: set<Id>, clock: int)
      requires Distinct(synaptome)
      ensures Valid()
      ensures this.synaptome == synaptome && this.connections == connections && this.clock == clock
      ensures lanes == [] && laneSeen == map[] && laneLastAt == 0
      ensures this.self == self && this.cap == cap && this.cfg == cfg
    {
      this.self, this.cap, this.cfg := self, cap, cfg;
      this.synaptome, this.connections, this.clock := synaptome, connections, clock;
      laneSeen, laneLastAt := map[], 0;
      lanes, prunedAt := [], clock;
    }

    method Tick(ms: nat)
      requires Valid()
      modifies this`clock
      ensures Valid() && clock == old(clock) + ms
    {
      clock := clock + ms;
    }

    ghost predicate LaneReached()
      reads this
    {
      |synaptome| < cap && cfg.kJoin > 0 && |synaptome| >= cap - cfg.kJoin
    }

    /** Every admission of the identity through the lane is a window old, and the last of anybody's a cooldown old. */
    ghost predicate LaneOpenTo(key: string)
      reads this
    {
      && (forall a :: a in lanes && a.key == key ==> clock - a.at >= cfg.laneWindowMs)
      && clock - (if lanes == [] then laneLastAt else lanes[|lanes| - 1].at) >= cfg.laneCooldownMs
    }

    ghost function Ids(): set<Id>
      reads this
    {
      Members(synaptome)
    }

    function KeyOf(sponsor: Id): string {
      LowHex(sponsor, 64)
    }

    method PruneLane()
      requires Valid()
      modifies this`laneSeen, this`prunedAt
      ensures Valid() && prunedAt == clock
      ensures laneSeen == InWindow(cfg, old(laneSeen), clock)
    {
      hide LaneHistory;
      ghost var before := laneSeen;
      LanePruned(cfg, lanes, before, laneLastAt, prunedAt, clock);
      var keys := laneSeen.Keys;
      while keys != {}
        invariant keys <= before.Keys
        invariant forall k :: k in laneSeen <==>
                    k in before && (k in keys || clock - before[k] < cfg.laneWindowMs)
        invariant forall k :: k in laneSeen ==> laneSeen[k] == before[k]
        decreases |keys|
      {
        var k :| k in keys;
        if clock - laneSeen[k] >= cfg.laneWindowMs {
          laneSeen := laneSeen - {k};
        }
        keys := keys - {k};
      }
      assert laneSeen == InWindow(cfg, before, clock);
      prunedAt := clock;
    }

    lemma LaneLast()
      requires LaneHistory(cfg, lanes, laneSeen, laneLastAt, prunedAt)
      ensures lanes != [] ==> laneLastAt == lanes[|lanes| - 1].at
    {
    }

    /** `_gateDecision`. */
    method Decide(sponsor: Id, around: Surroundings, vitality: Id -> real) returns (d: Decision)
      requires Valid() && sponsor !in synaptome
      modifies this`laneSeen, this`prunedAt
      ensures Valid()
      ensures laneSeen == if LaneReached() then InWindow(cfg, old(laneSeen), clock) else old(laneSeen)
      ensures d == AdmitBelowCap <==> |synaptome| < cap && !LaneReached()
      ensures LaneReached() ==>
                d == if KeyOf(sponsor) in laneSeen then Refuse(LaneSeen)
                     else if clock - laneLastAt < cfg.laneCooldownMs then Refuse(LaneCooldown)
                     else AdmitLane(KeyOf(sponsor), clock)
      ensures LaneReached() ==> prunedAt == clock && (d.AdmitLane? <==> LaneOpenTo(KeyOf(sponsor)))
      ensures |synaptome| >= cap ==> AtCap(sponsor, around, vitality, d)
    {
      hide LaneHistory, LowHex, Evictable, NearImproves, Distinct, Members;
      if |synaptome| < cap {
        if cfg.kJoin > 0 && |synaptome| >= cap - cfg.kJoin {
          PruneLane();
          var key := IdentitySuffix(Big(sponsor));
          PrunedTellsWindow(key.value);
          LaneLast();
          if key.value in laneSeen {
            return Refuse(LaneSeen);
          }
          if clock - laneLastAt < cfg.laneCooldownMs {
            return Refuse(LaneCooldown);
          }
          return AdmitLane(key.value, clock);
        }
        return AdmitBelowCap;
      }
      if cfg.kNear == 0 {
        return Thrown;
      }
      var victim, near := FindVictim(cfg, self, synaptome, around, vitality, sponsor);
      if victim.None? {
        return Refuse(if near then NoSwapNear else NoSwap);
      }
      if victim.value in around.duties {
        return Refuse(Duty);
      }
      return AdmitSwap(victim.value, near);
    }

    /** The decisions open to the gate at cap, each in exactly its own case. */
    ghost predicate AtCap(sponsor: Id, around: Surroundings, vitality: Id -> real, d: Decision)
      reads this
    {
      if cfg.kNear == 0 then d == Thrown
      else match d {
        case AdmitSwap(v, near) =>
          && IsVictim(cfg, self, synaptome, |synaptome|, around, vitality, sponsor, v)
          && v !in around.duties
          && (near <==> NearImproves(cfg, self, Ids(), around, sponsor))
        case Refuse(Duty) =>
          exists v :: IsVictim(cfg, self, synaptome, |synaptome|, around, vitality, sponsor, v) && v in around.duties
        case Refuse(why) =>
          && NoneEvictable(cfg, self, synaptome, |synaptome|, around, sponsor)
          && why == if NearImproves(cfg, self, Ids(), around, sponsor) then NoSwapNear else NoSwap
        case _ => false
      }
    }

    ghost predicate VictimNow(sponsor: Id, around: Surroundings, vitality: Id -> real, v: Id)
      reads this
    {
      IsVictim(cfg, self, synaptome, |synaptome|, around, vitality, sponsor, v)
    }

    /** At cap the sponsor gets in exactly when there is a victim without a duty. */
    lemma AdmittedAtCap(sponsor: Id, around: Surroundings, vitality: Id -> real, d: Decision)
      requires AtCap(sponsor, around, vitality, d)
      ensures d.AdmitSwap? <==> cfg.kNear > 0 && exists v :: v !in around.duties && VictimNow(sponsor, around, vitality, v)
      ensures !d.AdmitLane? && !d.AdmitBelowCap?
    {
      hide IsVictim, NoneEvictable;
      forall v, w | VictimNow(sponsor, around, vitality, v) && VictimNow(sponsor, around, vitality, w) ensures v == w {
        VictimIsUnique(cfg, self, synaptome, around, vitality, sponsor, v, w);
      }
      forall v | VictimNow(sponsor, around, vitality, v)
        ensures !NoneEvictable(cfg, self, synaptome, |synaptome|, around, sponsor)
      {
        VictimIsUnique(cfg, self, synaptome, around, vitality, sponsor, v, v);
      }
      match d
      case AdmitSwap(v, near) => assert cfg.kNear > 0 ==> VictimNow(sponsor, around, vitality, v);
      case Refuse(Duty) =>
        if cfg.kNear > 0 {
          var v :| IsVictim(cfg, self, synaptome, |synaptome|, around, vitality, sponsor, v) && v in around.duties;
          assert VictimNow(sponsor, around, vitality, v);
        }
      case _ =>
    }

    /** `_gateCommit`. */
    method Commit(sponsor: Id, d: Decision) returns (admitted: bool)
      requires Valid() && sponsor !in synaptome
      requires d.AdmitLane? ==> LaneTakes(cfg, laneSeen, laneLastAt, prunedAt, d.key, d.at)
      modifies this`synaptome, this`connections, this`laneSeen, this`laneLastAt, this`lanes
      ensures Valid()
      ensures admitted <==> d.AdmitBelowCap? || d.AdmitLane? || d.AdmitSwap?
      ensures synaptome == if !admitted then old(synaptome)
                           else (if d.AdmitSwap? then Without(old(synaptome), d.victim) else old(synaptome)) + [sponsor]
      ensures connections == old(connections) - if d.AdmitSwap? then {d.victim} else {}
      ensures lanes == old(lanes) + if d.AdmitLane? then [LaneAdmission(d.key, d.at)] else []
      ensures laneSeen == if d.AdmitLane? then old(laneSeen)[d.key := d.at] else old(laneSeen)
      ensures laneLastAt == if d.AdmitLane? then d.at else old(laneLastAt)
    {
      hide LaneHistory;
      WithoutFacts(synaptome, if d.AdmitSwap? then d.victim else sponsor);
      match d {
        case AdmitLane(key, at) =>
          LaneAdmitted(cfg, lanes, laneSeen, laneLastAt, prunedAt, key);
          laneSeen, laneLastAt := laneSeen[key := at], at;
          lanes := lanes + [LaneAdmission(key, at)];
        case AdmitSwap(victim, near) =>
          synaptome := Without(synaptome, victim);
          connections := connections - {victim};
        case AdmitBelowCap =>
        case _ =>
          return false;
      }
      assert sponsor !in Members(synaptome);
      Appended(synaptome, sponsor);
      synaptome := synaptome + [sponsor];
      return true;
    }

    lemma LaneOpen(d: Decision)
      requires LaneReached() && d.AdmitLane? ==>
                 d.key !in laneSeen && d.at == clock == prunedAt && clock - laneLastAt >= cfg.laneCooldownMs
      requires d.AdmitLane? ==> LaneReached()
      ensures d.AdmitLane? ==> LaneTakes(cfg, laneSeen, laneLastAt, prunedAt, d.key, d.at)
    {
    }

    lemma PrunedTellsWindow(key: string)
      requires LaneHistory(cfg, lanes, laneSeen, laneLastAt, prunedAt) && prunedAt == clock
      requires laneSeen == InWindow(cfg, laneSeen, clock)
      ensures key in laneSeen <==> exists a :: a in lanes && a.key == key && clock - a.at < cfg.laneWindowMs
    {
      hide LanePaced;
      if key in laneSeen {
        assert LaneAdmission(key, laneSeen[key]) in lanes;
      }
    }

    /** `_admitOrImprove`: the table never grows past its cap, and at cap it changes by gate swaps only. */
    method AdmitOrImprove(sponsor: Id, around: Surroundings, vitality: Id -> real) returns (admitted: bool)
      requires Valid() && sponsor !in synaptome
      modifies this`synaptome, this`connections, this`laneSeen, this`laneLastAt, this`lanes, this`prunedAt
      ensures Valid()
      ensures old(lanes) <= lanes
      ensures !admitted ==> synaptome == old(synaptome) && connections == old(connections)
      ensures admitted ==> sponsor in synaptome
      ensures |old(synaptome)| < cap ==> |synaptome| <= cap
      ensures |old(synaptome)| < cap && admitted ==> synaptome == old(synaptome) + [sponsor]
      ensures |old(synaptome)| < cap ==> (admitted <==> !old(LaneReached()) || old(LaneOpenTo(KeyOf(sponsor))))
      ensures lanes == old(lanes) + if admitted && old(LaneReached()) then [LaneAdmission(KeyOf(sponsor), clock)] else []
      ensures lanes == old(lanes) && |old(synaptome)| < cap && admitted && cfg.kJoin > 0 ==> |synaptome| <= cap - cfg.kJoin
      ensures |lanes| > |old(lanes)| ==> cap - cfg.kJoin < |synaptome| <= cap
      ensures |old(synaptome)| >= cap ==>
                (admitted <==> cfg.kNear > 0 && old(exists v :: v !in around.duties && VictimNow(sponsor, around, vitality, v)))
      ensures |old(synaptome)| >= cap ==> |synaptome| == |old(synaptome)|
      ensures |old(synaptome)| >= cap && admitted ==>
                exists v :: GateSwap(cfg, self, cap, around, old(Ids()), sponsor, v) &&
                            Ids() == Swapped(old(Ids()), sponsor, v)
      ensures forall e :: e in old(Ids()) && HasReason(cfg, self, old(Ids()), around, sponsor, e) ==> e in Ids()
    {
      hide LaneHistory, Evictable, Distinct, Members, NoneEvictable, NearImproves, InWindow, LaneTakes, HasReason, IsVictim,
        GateSwap, Without, LowHex;
      var d := Decide(sponsor, around, vitality);
      LaneOpen(d);
      if |synaptome| >= cap {
        AdmittedAtCap(sponsor, around, vitality, d);
      }
      admitted := Commit(sponsor, d);
      MembersCount(old(synaptome));
      MembersCount(synaptome);
      if d.AdmitSwap? {
        SwapIsGateSwap(cfg, self, cap, old(synaptome), around, vitality, sponsor, d.victim);
        assert Ids() == Swapped(old(Ids()), sponsor, d.victim);
        NoReasonToGo(cfg, self, cap, around, old(Ids()), sponsor, d.victim);
      } else if admitted {
        Appended(old(synaptome), sponsor);
      }
    }
  }
}
