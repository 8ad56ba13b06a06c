/** What runs of gate swaps do to a table: the structure kept, and the measure that makes them end. */
module GateRuns {

  import opened Counting
  import opened Gate
  import opened KeySpace
  import opened Nearest
  import opened Options
  import opened Strata

  /** One swap the gate allows: a table at cap, an evictable victim without a duty, a new sponsor. */
  ghost predicate GateSwap(
    cfg: GateConfig, self: Id, cap: nat, around: Surroundings, ids: set<Id>, sponsor: Id, victim: Id)
  {
    && |ids| >= cap
    && cfg.kNear >= 1
    && sponsor !in ids
    && Evictable(cfg, self, ids, around, sponsor, victim)
    && victim !in around.duties
  }

  ghost function Swapped(ids: set<Id>, sponsor: Id, victim: Id): set<Id> {
    ids - {victim} + {sponsor}
  }

  // ---- what one swap keeps ----

  lemma SwapKeepsSize(ids: set<Id>, sponsor: Id, victim: Id)
    requires victim in ids && sponsor !in ids
    ensures |Swapped(ids, sponsor, victim)| == |ids|
  {
  }

  /** A swap takes no peer held near, in a sparse band, for service or for duty. */
  lemma SwapSparesTheHeld(
    cfg: GateConfig, self: Id, cap: nat, around: Surroundings, ids: set<Id>, sponsor: Id, victim: Id)
    requires GateSwap(cfg, self, cap, around, ids, sponsor, victim)
    ensures var r := ReasonsFor(cfg, self, ids, around, Some(sponsor), victim);
            !r.near && !r.band && !r.service && !r.duty
  {
  }

  /** No band falls below the floor it stood at or above, and a band at or below the floor loses nobody. */
  lemma SwapKeepsFloors(
    cfg: GateConfig, self: Id, cap: nat, around: Surroundings, ids: set<Id>, sponsor: Id, victim: Id, g: nat)
    requires GateSwap(cfg, self, cap, around, ids, sponsor, victim)
    ensures var before := Count(Bands(self), ids, g);
            var after := Count(Bands(self), Swapped(ids, sponsor, victim), g);
            && (before >= cfg.sparseFloor ==> after >= cfg.sparseFloor)
            && (before <= cfg.sparseFloor ==> after >= before)
  {
    hide Count, Top;
    CountWithout(Bands(self), ids, victim, g);
    CountWith(Bands(self), ids - {victim}, sponsor, g);
  }

  /** The near set after the swap is the one the decision ranked, with the sponsor in it or not. */
  lemma SwapKeepsNear(
    cfg: GateConfig, self: Id, cap: nat, around: Surroundings, ids: set<Id>, sponsor: Id, victim: Id)
    requires GateSwap(cfg, self, cap, around, ids, sponsor, victim) && sponsor !in around.stale
    ensures Top(cfg.kNear, self, Held(Swapped(ids, sponsor, victim), around)) ==
            Top(cfg.kNear, self, Held(ids, around) + {sponsor})
  {
    var all := Held(ids, around) + {sponsor};
    var few := Held(Swapped(ids, sponsor, victim), around);
    assert few == all - {victim};
    TopKept(cfg.kNear, self, few, all);
  }

  // ---- the measure ----

  /** The near distances, an unfilled near place counting as `far`. */
  ghost function NearSum(k: nat, self: Id, held: set<Id>, far: nat): nat {
    SumDistances(self, Top(k, self, held)) + Repeated(far, Missing(k, self, held))
  }

  ghost function Missing(k: nat, self: Id, held: set<Id>): nat {
    TopCount(k, self, held);
    k - |Top(k, self, held)|
  }

  lemma NearSumOf(k: nat, self: Id, a: set<Id>, b: set<Id>, far: nat)
    requires Top(k, self, a) == Top(k, self, b)
    ensures NearSum(k, self, a, far) == NearSum(k, self, b, far)
  {
  }

  /** A sponsor nearer than the near ceiling lowers the near sum. */
  lemma NearSumDisplaced(k: nat, self: Id, held: set<Id>, far: nat, f: Id, s: Id)
    requires IsKth(k, self, held, f) && s !in held && Xor(self, s) < Xor(self, f)
    ensures NearSum(k, self, held + {s}, far) < NearSum(k, self, held, far)
  {
    hide Top, Closer, SumDistances, Repeated, Xor;
    var top := Top(k, self, held);
    TopDisplaced(k, self, held, f, s);
    KthIsFarthest(k, self, held, f, f);
    InTop(k, self, held, s);
    SumWithout(self, top, f);
    SumWithout(self, top - {f} + {s}, s);
    assert top - {f} + {s} - {s} == top - {f};
    assert |top - {f} + {s}| == |top|;
  }

  lemma InTop(k: nat, self: Id, held: set<Id>, e: Id)
    ensures e in Top(k, self, held) ==> e in held
  {
  }

  /** With near places to spare, any sponsor lowers the near sum. */
  lemma NearSumFilled(k: nat, self: Id, held: set<Id>, far: nat, s: Id)
    requires |held| < k && s !in held && Xor(self, s) < far
    ensures NearSum(k, self, held + {s}, far) < NearSum(k, self, held, far)
  {
    hide Top, SumDistances, Xor;
    TopOfFew(k, self, held);
    TopOfFew(k, self, held + {s});
    SumWithout(self, held + {s}, s);
    assert held + {s} - {s} == held;
  }

  lemma {:induction false} KthExists(k: nat, self: Id, held: set<Id>) returns (f: Id)
    requires 1 <= k <= |held|
    ensures IsKth(k, self, held, f)
  {
    var s := Ordered(self, held);
    RankInOrder(self, s, k - 1);
    f := s[k - 1];
    assert f in Members(s);
  }

  /** The measure of a table: the near sum first, then the crowding of the bands. */
  ghost function Near(cfg: GateConfig, self: Id, around: Surroundings, ids: set<Id>, far: nat): nat {
    NearSum(cfg.kNear, self, Held(ids, around), far)
  }

  ghost function Crowd(self: Id, ids: set<Id>): nat {
    Crowding(Bands(self), ids, STRATA_GROUPS)
  }

  /** Every swap lowers the measure lexicographically; a near swap lowers its first part. */
  lemma SwapLowersMeasure(
    cfg: GateConfig, self: Id, cap: nat, around: Surroundings, ids: set<Id>, sponsor: Id, victim: Id, far: nat)
    requires GateSwap(cfg, self, cap, around, ids, sponsor, victim)
    requires sponsor !in around.stale && Xor(self, sponsor) < far
    ensures var after := Swapped(ids, sponsor, victim);
            || Near(cfg, self, around, after, far) < Near(cfg, self, around, ids, far)
            || (Near(cfg, self, around, after, far) == Near(cfg, self, around, ids, far) &&
                Crowd(self, after) < Crowd(self, ids))
    ensures NearImproves(cfg, self, ids, around, sponsor) ==>
              Near(cfg, self, around, Swapped(ids, sponsor, victim), far) < Near(cfg, self, around, ids, far)
  {
    hide Top, Crowding, Count, NearSum, IsKth, BandOf, Xor;
    var held := Held(ids, around);
    var k := cfg.kNear;
    SwapKeepsNear(cfg, self, cap, around, ids, sponsor, victim);
    NearSumOf(k, self, Held(Swapped(ids, sponsor, victim), around), held + {sponsor}, far);
    if NearImproves(cfg, self, ids, around, sponsor) {
      var f :| IsKth(k, self, held, f) && Xor(self, sponsor) < Xor(self, f);
      NearSumDisplaced(k, self, held, far, f, sponsor);
    } else if |held| < k {
      NearSumFilled(k, self, held, far, sponsor);
    } else {
      var f := KthExists(k, self, held);
      TopUnmoved(k, self, held, f, sponsor);
      NearSumOf(k, self, held + {sponsor}, held, far);
      BandsAreGroups(self, sponsor);
      BandsAreGroups(self, victim);
      CrowdingFallsIff(Bands(self), ids, victim, sponsor, STRATA_GROUPS);
    }
  }

  lemma BandsAreGroups(self: Id, e: Id)
    ensures Bands(self)(e) == BandOf(self, e) < STRATA_GROUPS
  {
  }

  // ---- which swap ----

  /** Nothing of place holds the peer: not near once the sponsor is ranked, not in a sparse band, not the bridge. */
  ghost predicate Unheld(cfg: GateConfig, self: Id, around: Surroundings, ids: set<Id>, sponsor: Id, e: Id) {
    var r := ReasonsFor(cfg, self, ids, around, Some(sponsor), e);
    !r.near && !r.band && !r.service
  }

  /** A sponsor is a near improvement exactly when the near places are full and it takes one of them. */
  lemma NearImprovesIff(cfg: GateConfig, self: Id, ids: set<Id>, around: Surroundings, sponsor: Id)
    requires sponsor !in ids && cfg.kNear >= 1
    ensures NearImproves(cfg, self, ids, around, sponsor) <==>
            |Held(ids, around)| >= cfg.kNear && sponsor in Top(cfg.kNear, self, Held(ids, around) + {sponsor})
  {
    hide Top, Closer, Xor;
    var held, k := Held(ids, around), cfg.kNear;
    if NearImproves(cfg, self, ids, around, sponsor) {
      var f :| IsKth(k, self, held, f) && Xor(self, sponsor) < Xor(self, f);
      TopDisplaced(k, self, held, f, sponsor);
      KthLeavesEnough(k, self, held, f);
    } else if |held| >= k {
      var f := KthExists(k, self, held);
      TopUnmoved(k, self, held, f, sponsor);
      InTop(k, self, held, sponsor);
    }
  }

  lemma KthLeavesEnough(k: nat, self: Id, held: set<Id>, f: Id)
    requires IsKth(k, self, held, f)
    ensures |held| >= k
  {
    hide Xor;
    assert f !in Closer(self, held, f);
    SubsetCount(Closer(self, held, f) + {f}, held);
  }

  /**
   * The gate may give up a peer that nothing of place holds exactly when the swap brings a near improvement or
   * spreads the table more evenly over the bands: a refused pairing would have done neither.
   */
  lemma EvictableIffSwapHelps(
    cfg: GateConfig, self: Id, ids: set<Id>, around: Surroundings, sponsor: Id, e: Id)
    requires e in ids && sponsor !in ids
    ensures Evictable(cfg, self, ids, around, sponsor, e) <==>
            && Unheld(cfg, self, around, ids, sponsor, e)
            && (NearImproves(cfg, self, ids, around, sponsor) ||
                Crowd(self, Swapped(ids, sponsor, e)) < Crowd(self, ids))
  {
    hide Top, Crowding, Count, IsKth, BandOf;
    BandsAreGroups(self, sponsor);
    BandsAreGroups(self, e);
    CrowdingFallsIff(Bands(self), ids, e, sponsor, STRATA_GROUPS);
  }

  /** Of the peers the gate may give up it takes one from the densest band, and there one of the least vitality, the first in the table. */
  lemma VictimGoesFirst(
    cfg: GateConfig, self: Id, entries: seq<Id>, around: Surroundings, vitality: Id -> real, sponsor: Id, v: Id, i: nat)
    requires IsVictim(cfg, self, entries, |entries|, around, vitality, sponsor, v)
    requires i < |entries| && Evictable(cfg, self, Members(entries), around, sponsor, entries[i]) && entries[i] != v
    ensures var count := e => BandCount(self, Members(entries), e);
            || count(v) > count(entries[i])
            || (count(v) == count(entries[i]) && vitality(v) < vitality(entries[i]))
            || (count(v) == count(entries[i]) && vitality(v) == vitality(entries[i]) && v in entries[..i])
  {
    hide Evictable, BandCount;
    var at :| 0 <= at < |entries| && entries[at] == v &&
      forall j :: 0 <= j < at && Evictable(cfg, self, Members(entries), around, sponsor, entries[j]) ==>
        GoesBefore(self, Members(entries), vitality, v, entries[j]);
    assert at < i ==> entries[..i][at] == v;
  }

  /** The decision names one victim and no other, and names one whenever the gate may give up anybody. */
  lemma VictimIsUnique(
    cfg: GateConfig, self: Id, entries: seq<Id>, around: Surroundings, vitality: Id -> real, sponsor: Id, v: Id, w: Id)
    requires IsVictim(cfg, self, entries, |entries|, around, vitality, sponsor, v)
    ensures !NoneEvictable(cfg, self, entries, |entries|, around, sponsor)
    ensures IsVictim(cfg, self, entries, |entries|, around, vitality, sponsor, w) ==> v == w
  {
    hide Evictable, BandCount;
  }

  /** Everything the gate may give up lowers the crowding by less than the victim does, or as much, unless the swap is a near one. */
  lemma VictimLowersCrowdingMost(
    cfg: GateConfig, self: Id, entries: seq<Id>, around: Surroundings, vitality: Id -> real, sponsor: Id, v: Id, e: Id)
    requires Distinct(entries) && sponsor !in entries
    requires IsVictim(cfg, self, entries, |entries|, around, vitality, sponsor, v)
    requires Evictable(cfg, self, Members(entries), around, sponsor, e)
    ensures var ids := Members(entries);
            Crowd(self, ids - {v}) <= Crowd(self, ids - {e})
  {
    hide Top, Crowding, Count, IsKth, BandOf, NearImproves;
    var ids := Members(entries);
    var i :| 0 <= i < |entries| && entries[i] == e;
    if e != v {
      VictimGoesFirst(cfg, self, entries, around, vitality, sponsor, v, i);
      LessOne(self, ids, v);
      LessOne(self, ids, e);
    }
  }

  lemma LessOne(self: Id, ids: set<Id>, e: Id)
    requires e in ids
    ensures Crowd(self, ids) == Crowd(self, ids - {e}) + 2 * BandCount(self, ids, e) - 1
  {
    hide Crowding, Count, BandOf;
    BandsAreGroups(self, e);
    CrowdingWith(Bands(self), ids - {e}, e, STRATA_GROUPS);
    CountWithout(Bands(self), ids, e, BandOf(self, e));
    assert ids - {e} + {e} == ids;
  }

  // ---- runs ----

  datatype Swap = Swap(around: Surroundings, sponsor: Id, victim: Id)

  /** A run of gate swaps under one set of stale channels; everything else may change between swaps. */
  ghost predicate SwapRun(
    cfg: GateConfig, self: Id, cap: nat, stale: set<Id>, far: nat, tables: seq<set<Id>>, swaps: seq<Swap>)
  {
    && |tables| == |swaps| + 1
    && forall i :: 0 <= i < |swaps| ==>
         && swaps[i].around.stale == stale
         && swaps[i].sponsor !in stale
         && Xor(self, swaps[i].sponsor) < far
         && GateSwap(cfg, self, cap, swaps[i].around, tables[i], swaps[i].sponsor, swaps[i].victim)
         && tables[i + 1] == Swapped(tables[i], swaps[i].sponsor, swaps[i].victim)
  }

  /** Both parts of the measure in one number, for tables of `size` peers. */
  ghost function Rank(cfg: GateConfig, self: Id, stale: set<Id>, ids: set<Id>, far: nat): nat {
    Combined(NearSum(cfg.kNear, self, ids - stale, far), Square(|ids|), Crowd(self, ids))
  }

  /** A count of `first` rounds of `limit + 1`, and `second` more. */
  function Combined(first: nat, limit: nat, second: nat): nat {
    if first == 0 then second else limit + 1 + Combined(first - 1, limit, second)
  }

  lemma {:induction false} CombinedFalls(first: nat, first': nat, limit: nat, second: nat, second': nat)
    requires first' < first || (first' == first && second' < second)
    requires second' <= limit
    ensures Combined(first', limit, second') < Combined(first, limit, second)
  {
    if first' > 0 {
      CombinedFalls(first - 1, first' - 1, limit, second, second');
    }
  }

  lemma RankFalls(
    cfg: GateConfig, self: Id, cap: nat, stale: set<Id>, far: nat, tables: seq<set<Id>>, swaps: seq<Swap>, i: nat)
    requires SwapRun(cfg, self, cap, stale, far, tables, swaps) && i < |swaps|
    ensures |tables[i + 1]| == |tables[i]|
    ensures Rank(cfg, self, stale, tables[i + 1], far) < Rank(cfg, self, stale, tables[i], far)
  {
    hide Combined, Evictable, NearImproves, Crowding, NearSum;
    var w := swaps[i];
    InTable(cfg, self, cap, w.around, tables[i], w.sponsor, w.victim);
    SwapKeepsSize(tables[i], w.sponsor, w.victim);
    SwapLowersMeasure(cfg, self, cap, w.around, tables[i], w.sponsor, w.victim, far);
    CrowdingBound(Bands(self), tables[i + 1], STRATA_GROUPS);
    CombinedFalls(
      NearSum(cfg.kNear, self, tables[i] - stale, far), NearSum(cfg.kNear, self, tables[i + 1] - stale, far),
      Square(|tables[i]|), Crowd(self, tables[i]), Crowd(self, tables[i + 1]));
  }

  lemma InTable(
    cfg: GateConfig, self: Id, cap: nat, around: Surroundings, ids: set<Id>, sponsor: Id, victim: Id)
    requires GateSwap(cfg, self, cap, around, ids, sponsor, victim)
    ensures victim in ids && sponsor !in ids
  {
  }

  lemma {:induction false} RankFallsBy(
    cfg: GateConfig, self: Id, cap: nat, stale: set<Id>, far: nat, tables: seq<set<Id>>, swaps: seq<Swap>, i: nat, j: nat)
    requires SwapRun(cfg, self, cap, stale, far, tables, swaps) && i <= j <= |swaps|
    ensures |tables[j]| == |tables[i]|
    ensures Rank(cfg, self, stale, tables[j], far) + (j - i) <= Rank(cfg, self, stale, tables[i], far)
    decreases j - i
  {
    hide SwapRun, Rank;
    TablesOfRun(cfg, self, cap, stale, far, tables, swaps);
    if i < j {
      RankFallsBy(cfg, self, cap, stale, far, tables, swaps, i, j - 1);
      RankFalls(cfg, self, cap, stale, far, tables, swaps, j - 1);
    }
  }

  lemma TablesOfRun(
    cfg: GateConfig, self: Id, cap: nat, stale: set<Id>, far: nat, tables: seq<set<Id>>, swaps: seq<Swap>)
    requires SwapRun(cfg, self, cap, stale, far, tables, swaps)
    ensures |tables| == |swaps| + 1
  {
  }

  /** Every run of swaps ends: it is no longer than the rank of the table it starts from. */
  lemma SwapRunsEnd(
    cfg: GateConfig, self: Id, cap: nat, stale: set<Id>, far: nat, tables: seq<set<Id>>, swaps: seq<Swap>)
    requires SwapRun(cfg, self, cap, stale, far, tables, swaps)
    ensures |swaps| <= Rank(cfg, self, stale, tables[0], far)
    ensures forall i :: 0 <= i < |tables| ==> |tables[i]| == |tables[0]|
  {
    hide GateSwap, Rank, Swapped;
    RankFallsBy(cfg, self, cap, stale, far, tables, swaps, 0, |swaps|);
    forall i | 0 <= i < |tables| ensures |tables[i]| == |tables[0]| {
      RankFallsBy(cfg, self, cap, stale, far, tables, swaps, 0, i);
    }
  }

  /** No table comes back, so no swap and no sequence of swaps is undone by later swaps. */
  lemma NoTableReturns(
    cfg: GateConfig, self: Id, cap: nat, stale: set<Id>, far: nat, tables: seq<set<Id>>, swaps: seq<Swap>, i: nat, j: nat)
    requires SwapRun(cfg, self, cap, stale, far, tables, swaps) && i < j <= |swaps|
    ensures tables[i] != tables[j]
  {
    hide GateSwap, Rank, Swapped;
    RankFallsBy(cfg, self, cap, stale, far, tables, swaps, i, j);
  }
}
