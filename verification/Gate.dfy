/** The hold-or-improve admission gate in front of a node's table of peers. */
module Gate {

  import opened Counting
  import opened KeySpace
  import opened Nearest
  import opened Options
  import opened Strata

  const STRATA_GROUPS: nat := 4

  datatype GateConfig = GateConfig(
    kNear: nat, sparseFloor: nat, kJoin: nat, laneCooldownMs: nat, laneWindowMs: nat)

  /** What the gate reads of its surroundings at one ask. */
  datatype Surroundings = Surroundings(
    stale: set<Id>,       // channels the transport reports stale
    bridge: Option<Id>,   // the bridge's node, when known
    duties: set<Id>)      // peers this node owes something to

  /** Why a peer is held. */
  datatype Reasons = Reasons(near: bool, band: bool, service: bool, duty: bool)

  datatype Refusal = LaneSeen | LaneCooldown | NoSwap | NoSwapNear | Duty

  datatype Decision =
    | AdmitBelowCap
    | AdmitLane(key: string, at: int)
    | AdmitSwap(victim: Id, near: bool)
    | Refuse(why: Refusal)
    | Thrown

  datatype LaneAdmission = LaneAdmission(key: string, at: int)

  // ---- bands ----

  function BandOf(self: Id, e: Id): (g: nat)
    ensures g < STRATA_GROUPS
  {
    var g := Clz264(Xor(self, e)) / 4;
    if g < STRATA_GROUPS - 1 then g else STRATA_GROUPS - 1
  }

  /** The first band holds the ids at 2^260 and more, the next those from 2^256, then from 2^252; the last holds the rest. */
  lemma BandDistance(self: Id, e: Id, g: nat)
    requires Xor(self, e) < Pow(2, ID_BITS) && g + 1 < STRATA_GROUPS
    ensures BandOf(self, e) <= g <==> Pow(2, 260 - 4 * g) <= Xor(self, e)
  {
    hide Xor, Clz264;
    ClzBound(Xor(self, e), 4 * g + 3);
  }

  ghost function Bands(self: Id): Id -> nat {
    e => BandOf(self, e)
  }

  function Got(counts: map<nat, nat>, g: nat): nat {
    if g in counts then counts[g] else 0
  }

  ghost function BandCount(self: Id, ids: set<Id>, e: Id): nat {
    Count(Bands(self), ids, BandOf(self, e))
  }

  method CountBands(self: Id, entries: seq<Id>) returns (counts: map<nat, nat>)
    requires Distinct(entries)
    ensures forall g :: Got(counts, g) == Count(Bands(self), Members(entries), g)
  {
    counts := map[];
    assert forall g :: InClass(Bands(self), Members(entries[..0]), g) == {};
    for i := 0 to |entries|
      invariant forall g :: Got(counts, g) == Count(Bands(self), Members(entries[..i]), g)
    {
      var g := BandOf(self, entries[i]);
      var before := counts;
      counts := counts[g := Got(counts, g) + 1];
      assert Members(entries[..i + 1]) == Members(entries[..i]) + {entries[i]};
      forall h ensures Got(counts, h) == Count(Bands(self), Members(entries[..i + 1]), h) {
        assert Got(before, h) == Count(Bands(self), Members(entries[..i]), h);
        CountWith(Bands(self), Members(entries[..i]), entries[i], h);
      }
    }
    assert entries[..|entries|] == entries;
  }

  // ---- the retention policy ----

  function NotStale(entries: seq<Id>, stale: set<Id>): seq<Id> {
    if entries == [] then []
    else NotStale(entries[..|entries| - 1], stale) +
         if entries[|entries| - 1] in stale then [] else [entries[|entries| - 1]]
  }

  lemma {:induction false} NotStaleMembers(entries: seq<Id>, stale: set<Id>)
    requires Distinct(entries)
    ensures Distinct(NotStale(entries, stale))
    ensures Members(NotStale(entries, stale)) == Members(entries) - stale
  {
    if entries != [] {
      var init, last := entries[..|entries| - 1], entries[|entries| - 1];
      NotStaleMembers(init, stale);
      assert entries == init + [last];
      assert Members(entries) == Members(init) + {last};
      assert last !in Members(init);
      assert last !in Members(NotStale(init, stale));
      assert Members(NotStale(init, stale) + [last]) == Members(NotStale(init, stale)) + {last};
    }
  }

  /** The peers the near reason may be given to. */
  ghost function Held(ids: set<Id>, around: Surroundings): set<Id> {
    ids - around.stale
  }

  ghost function Ranked(ids: set<Id>, around: Surroundings, extra: Option<Id>): set<Id> {
    Held(ids, around) + if extra.Some? then {extra.value} else {}
  }

  ghost function ReasonsFor(cfg: GateConfig, self: Id, ids: set<Id>, around: Surroundings, extra: Option<Id>, e: Id): Reasons {
    Reasons(
      e in Top(cfg.kNear, self, Ranked(ids, around, extra)),
      BandCount(self, ids, e) <= cfg.sparseFloor,
      around.bridge == Some(e),
      e in around.duties)
  }

  /** The distance of the `kNear`-th nearest held peer, if so many are held. */
  ghost predicate IsNearCeiling(cfg: GateConfig, self: Id, ids: set<Id>, around: Surroundings, ceil: Option<nat>) {
    match ceil
    case None => |Held(ids, around)| < cfg.kNear
    case Some(d) => exists f :: IsKth(cfg.kNear, self, Held(ids, around), f) && d == Xor(self, f)
  }

  /** The peers ranked near, with a candidate ranked among them, and the near ceiling. */
  method NearPeers(cfg: GateConfig, self: Id, entries: seq<Id>, around: Surroundings, extra: Option<Id>)
    returns (near: seq<Id>, nearCeil: Option<nat>)
    requires Distinct(entries) && cfg.kNear >= 1
    requires extra.Some? ==> extra.value !in entries
    ensures Members(near) == Top(cfg.kNear, self, Ranked(Members(entries), around, extra))
    ensures IsNearCeiling(cfg, self, Members(entries), around, nearCeil)
  {
    hide *;
    var unsorted := NotStale(entries, around.stale);
    var held := Sort(self, unsorted);
    HeldInOrder(self, entries, around, unsorted);
    nearCeil := if |held| >= cfg.kNear then Some(Xor(self, held[cfg.kNear - 1])) else None;
    CeilingInOrder(cfg, self, entries, around, held);
    var ranked := held;
    if extra.Some? {
      NotHeld(entries, around, extra.value);
      ranked := Sort(self, held + [extra.value]);
      WithExtraInOrder(self, held, extra.value);
    }
    RankedIs(entries, around, extra);
    PrefixIsTop(self, ranked, cfg.kNear);
    near := if |ranked| <= cfg.kNear then ranked else ranked[..cfg.kNear];
  }

  lemma RankedIs(entries: seq<Id>, around: Surroundings, extra: Option<Id>)
    ensures Ranked(Members(entries), around, extra) ==
            Held(Members(entries), around) + if extra.Some? then {extra.value} else {}
    ensures extra.None? ==> Ranked(Members(entries), around, extra) == Held(Members(entries), around)
  {
  }

  lemma NotHeld(entries: seq<Id>, around: Surroundings, e: Id)
    requires e !in entries
    ensures e !in Held(Members(entries), around)
  {
  }

  lemma CeilingInOrder(cfg: GateConfig, self: Id, entries: seq<Id>, around: Surroundings, held: seq<Id>)
    requires cfg.kNear >= 1 && Ascending(self, held) && Members(held) == Held(Members(entries), around)
    requires |held| == |Held(Members(entries), around)|
    ensures IsNearCeiling(cfg, self, Members(entries), around,
                          if |held| >= cfg.kNear then Some(Xor(self, held[cfg.kNear - 1])) else None)
  {
    hide Ascending, Held, Closer;
    if |held| >= cfg.kNear {
      var f := held[cfg.kNear - 1];
      RankInOrder(self, held, cfg.kNear - 1);
      assert f in Members(held);
      assert IsKth(cfg.kNear, self, Held(Members(entries), around), f);
    }
  }

  method RetentionMap(cfg: GateConfig, self: Id, entries: seq<Id>, around: Surroundings, extra: Option<Id>)
    returns (reasons: map<Id, Reasons>, nearCeil: Option<nat>)
    requires Distinct(entries) && cfg.kNear >= 1
    requires extra.Some? ==> extra.value !in entries
    ensures reasons.Keys == Members(entries)
    ensures forall e :: e in entries ==> reasons[e] == ReasonsFor(cfg, self, Members(entries), around, extra, e)
    ensures IsNearCeiling(cfg, self, Members(entries), around, nearCeil)
  {
    hide Top, Count, Ranked, IsNearCeiling, BandOf;
    var counts := CountBands(self, entries);
    var near;
    near, nearCeil := NearPeers(cfg, self, entries, around, extra);
    ghost var ids := Members(entries);
    reasons := map[];
    for i := 0 to |entries|
      invariant reasons.Keys == Members(entries[..i])
      invariant forall e :: e in entries[..i] ==> reasons[e] == ReasonsFor(cfg, self, ids, around, extra, e)
    {
      var e := entries[i];
      assert e in near <==> e in Members(near);
      reasons := reasons[e := Reasons(
                           e in near, Got(counts, BandOf(self, e)) <= cfg.sparseFloor,
                           around.bridge == Some(e), e in around.duties)];
      assert Members(entries[..i + 1]) == Members(entries[..i]) + {e};
    }
    assert entries[..|entries|] == entries;
  }

  lemma HeldInOrder(self: Id, entries: seq<Id>, around: Surroundings, unsorted: seq<Id>)
    requires Distinct(entries) && unsorted == NotStale(entries, around.stale)
    ensures Ascending(self, Sort(self, unsorted))
    ensures Members(Sort(self, unsorted)) == Held(Members(entries), around)
    ensures |Sort(self, unsorted)| == |Held(Members(entries), around)|
  {
    NotStaleMembers(entries, around.stale);
    SortKeeps(self, unsorted);
    SortOrders(self, unsorted);
    AscendingIsDistinct(self, Sort(self, unsorted));
    MembersCount(Sort(self, unsorted));
  }

  lemma WithExtraInOrder(self: Id, held: seq<Id>, extra: Id)
    requires Ascending(self, held) && extra !in Members(held)
    ensures Ascending(self, Sort(self, held + [extra]))
    ensures Members(Sort(self, held + [extra])) == Members(held) + {extra}
  {
    AscendingIsDistinct(self, held);
    SortKeeps(self, held + [extra]);
    SortOrders(self, held + [extra]);
    assert Members(held + [extra]) == Members(held) + {extra};
  }

  // ---- the victim ----

  /** The sponsor is nearer than the `kNear`-th nearest held peer. */
  ghost predicate NearImproves(cfg: GateConfig, self: Id, ids: set<Id>, around: Surroundings, sponsor: Id) {
    exists f :: IsKth(cfg.kNear, self, Held(ids, around), f) && Xor(self, sponsor) < Xor(self, f)
  }

  /** A peer the gate may give up for the sponsor: held for no reason of place, and at a margin unless the swap is a near one. */
  ghost predicate Evictable(cfg: GateConfig, self: Id, ids: set<Id>, around: Surroundings, sponsor: Id, e: Id) {
    && e in ids
    && e !in Top(cfg.kNear, self, Held(ids, around) + {sponsor})
    && BandCount(self, ids, e) > cfg.sparseFloor
    && around.bridge != Some(e)
    && (NearImproves(cfg, self, ids, around, sponsor) ||
        BandCount(self, ids, e) >= BandCount(self, ids, sponsor) + 2)
  }

  /** Which of two evictable peers goes first: the denser band, then the lower vitality. */
  ghost predicate GoesBefore(self: Id, ids: set<Id>, vitality: Id -> real, v: Id, e: Id) {
    || BandCount(self, ids, v) > BandCount(self, ids, e)
    || (BandCount(self, ids, v) == BandCount(self, ids, e) && vitality(v) < vitality(e))
  }

  /** The victim among the first `n` entries: none goes before it, and no earlier one ties with it. */
  ghost predicate IsVictim(
    cfg: GateConfig, self: Id, entries: seq<Id>, n: nat, around: Surroundings, vitality: Id -> real, sponsor: Id, v: Id)
    requires n <= |entries|
  {
    var ids := Members(entries);
    && Evictable(cfg, self, ids, around, sponsor, v)
    && (forall i :: 0 <= i < n && Evictable(cfg, self, ids, around, sponsor, entries[i]) ==>
          !GoesBefore(self, ids, vitality, entries[i], v))
    && (exists at :: 0 <= at < n && entries[at] == v &&
          forall i :: 0 <= i < at && Evictable(cfg, self, ids, around, sponsor, entries[i]) ==>
            GoesBefore(self, ids, vitality, v, entries[i]))
  }

  ghost predicate NoneEvictable(
    cfg: GateConfig, self: Id, entries: seq<Id>, n: nat, around: Surroundings, sponsor: Id)
    requires n <= |entries|
  {
    forall i :: 0 <= i < n ==> !Evictable(cfg, self, Members(entries), around, sponsor, entries[i])
  }

  lemma CeilingDecides(cfg: GateConfig, self: Id, ids: set<Id>, around: Surroundings, sponsor: Id, ceil: Option<nat>)
    requires IsNearCeiling(cfg, self, ids, around, ceil) && cfg.kNear >= 1
    ensures NearImproves(cfg, self, ids, around, sponsor) <==> ceil.Some? && Xor(self, sponsor) < ceil.value
  {
    var held := Held(ids, around);
    if NearImproves(cfg, self, ids, around, sponsor) {
      var f :| IsKth(cfg.kNear, self, held, f) && Xor(self, sponsor) < Xor(self, f);
      assert Closer(self, held, f) + {f} <= held;
      SubsetCount(Closer(self, held, f) + {f}, held);
      var g :| IsKth(cfg.kNear, self, held, g) && ceil.value == Xor(self, g);
      KthIsFarthest(cfg.kNear, self, held, f, g);
      KthIsFarthest(cfg.kNear, self, held, g, f);
    }
  }

  /** The scan for a victim at cap. */
  method FindVictim(
    cfg: GateConfig, self: Id, entries: seq<Id>, around: Surroundings, vitality: Id -> real, sponsor: Id)
    returns (victim: Option<Id>, near: bool)
    requires Distinct(entries) && cfg.kNear >= 1 && sponsor !in entries
    ensures near <==> NearImproves(cfg, self, Members(entries), around, sponsor)
    ensures victim.None? ==> NoneEvictable(cfg, self, entries, |entries|, around, sponsor)
    ensures victim.Some? ==> IsVictim(cfg, self, entries, |entries|, around, vitality, sponsor, victim.value)
  {
    hide Top, Count;
    ghost var ids := Members(entries);
    var counts := CountBands(self, entries);
    var reasons, nearCeil := RetentionMap(cfg, self, entries, around, Some(sponsor));
    CeilingDecides(cfg, self, ids, around, sponsor, nearCeil);
    near := nearCeil.Some? && Xor(self, sponsor) < nearCeil.value;
    var candCount := Got(counts, BandOf(self, sponsor));
    victim := None;
    var victimVit, victimCount := 0.0, 0;
    for i := 0 to |entries|
      invariant victim.None? ==> NoneEvictable(cfg, self, entries, i, around, sponsor)
      invariant victim.Some? ==> IsVictim(cfg, self, entries, i, around, vitality, sponsor, victim.value)
      invariant victim.Some? ==> victimVit == vitality(victim.value)
      invariant victim.Some? ==> victimCount == BandCount(self, ids, victim.value)
    {
      var e := entries[i];
      var r := reasons[e];
      var c := Got(counts, BandOf(self, e));
      EvictableBy(cfg, self, ids, around, sponsor, e, r, c, candCount, near);
      if !(r.near || r.band || r.service) && (near || c >= candCount + 2) {
        var v := vitality(e);
        if victim.None? || c > victimCount || (c == victimCount && v < victimVit) {
          VictimReplaced(cfg, self, entries, i, around, vitality, sponsor, victim);
          victim, victimVit, victimCount := Some(e), v, c;
        } else {
          VictimStays(cfg, self, entries, i, around, vitality, sponsor, victim.value);
        }
      } else if victim.Some? {
        VictimStays(cfg, self, entries, i, around, vitality, sponsor, victim.value);
      }
    }
  }

  lemma EvictableBy(
    cfg: GateConfig, self: Id, ids: set<Id>, around: Surroundings, sponsor: Id, e: Id,
    r: Reasons, c: nat, candCount: nat, near: bool)
    requires e in ids && r == ReasonsFor(cfg, self, ids, around, Some(sponsor), e)
    requires c == BandCount(self, ids, e) && candCount == BandCount(self, ids, sponsor)
    requires near <==> NearImproves(cfg, self, ids, around, sponsor)
    ensures Evictable(cfg, self, ids, around, sponsor, e) <==>
            !(r.near || r.band || r.service) && (near || c >= candCount + 2)
  {
  }

  lemma VictimReplaced(
    cfg: GateConfig, self: Id, entries: seq<Id>, i: nat, around: Surroundings, vitality: Id -> real, sponsor: Id,
    victim: Option<Id>)
    requires i < |entries| && Evictable(cfg, self, Members(entries), around, sponsor, entries[i])
    requires victim.None? ==> NoneEvictable(cfg, self, entries, i, around, sponsor)
    requires victim.Some? ==> IsVictim(cfg, self, entries, i, around, vitality, sponsor, victim.value)
    requires victim.Some? ==> GoesBefore(self, Members(entries), vitality, entries[i], victim.value)
    ensures IsVictim(cfg, self, entries, i + 1, around, vitality, sponsor, entries[i])
  {
    hide Evictable, BandCount;
    var e := entries[i];
    var ids := Members(entries);
    forall j | 0 <= j < i && Evictable(cfg, self, ids, around, sponsor, entries[j])
      ensures GoesBefore(self, ids, vitality, e, entries[j])
    {
      if victim.Some? {
        assert !GoesBefore(self, ids, vitality, entries[j], victim.value);
      }
    }
    assert entries[i] == e;
  }

  lemma VictimStays(
    cfg: GateConfig, self: Id, entries: seq<Id>, i: nat, around: Surroundings, vitality: Id -> real, sponsor: Id, v: Id)
    requires i < |entries|
    requires IsVictim(cfg, self, entries, i, around, vitality, sponsor, v)
    requires Evictable(cfg, self, Members(entries), around, sponsor, entries[i]) ==>
               !GoesBefore(self, Members(entries), vitality, entries[i], v)
    ensures IsVictim(cfg, self, entries, i + 1, around, vitality, sponsor, v)
  {
    hide Evictable, GoesBefore;
  }
}
