/** How many ids fall in each class of a grouping, and the sum of the squares of those counts. */
module Strata {

  import opened KeySpace

  ghost function InClass(group: Id -> nat, ids: set<Id>, g: nat): set<Id> {
    set e | e in ids && group(e) == g
  }

  ghost function Count(group: Id -> nat, ids: set<Id>, g: nat): nat {
    |InClass(group, ids, g)|
  }

  /** The crowding of the first `n` classes: small when the ids are spread evenly. */
  ghost function Crowding(group: Id -> nat, ids: set<Id>, n: nat): nat {
    if n == 0 then 0 else Crowding(group, ids, n - 1) + Square(Count(group, ids, n - 1))
  }

  ghost function Square(n: nat): nat {
    n * n
  }

  lemma CountWith(group: Id -> nat, ids: set<Id>, e: Id, g: nat)
    requires e !in ids
    ensures Count(group, ids + {e}, g) == Count(group, ids, g) + if group(e) == g then 1 else 0
  {
    assert e !in InClass(group, ids, g);
    assert InClass(group, ids + {e}, g) == InClass(group, ids, g) + if group(e) == g then {e} else {};
  }

  lemma CountWithout(group: Id -> nat, ids: set<Id>, e: Id, g: nat)
    requires e in ids
    ensures Count(group, ids, g) == Count(group, ids - {e}, g) + if group(e) == g then 1 else 0
  {
    CountWith(group, ids - {e}, e, g);
    assert ids - {e} + {e} == ids;
  }

  lemma SquareOfNext(n: nat)
    ensures Square(n + 1) == Square(n) + 2 * n + 1
  {
  }

  /** One more id adds twice its class's count and one. */
  lemma {:induction false} CrowdingWith(group: Id -> nat, ids: set<Id>, e: Id, n: nat)
    requires e !in ids
    ensures Crowding(group, ids + {e}, n) ==
            Crowding(group, ids, n) + if group(e) < n then 2 * Count(group, ids, group(e)) + 1 else 0
  {
    hide Count;
    if n > 0 {
      CrowdingWith(group, ids, e, n - 1);
      CountWith(group, ids, e, n - 1);
      SquareOfNext(Count(group, ids, n - 1));
    }
  }

  /** Replacing one id by another lowers the crowding exactly at a margin of two. */
  lemma CrowdingFallsIff(group: Id -> nat, ids: set<Id>, out: Id, in_: Id, n: nat)
    requires out in ids && in_ !in ids && group(out) < n && group(in_) < n
    ensures Crowding(group, ids - {out} + {in_}, n) < Crowding(group, ids, n) <==>
            Count(group, ids, group(out)) >= Count(group, ids, group(in_)) + 2
  {
    hide Count, Crowding;
    var rest := ids - {out};
    assert rest + {out} == ids;
    CrowdingWith(group, rest, out, n);
    CrowdingWith(group, rest, in_, n);
    CountWithout(group, ids, out, group(out));
    CountWithout(group, ids, out, group(in_));
  }

  /** The crowding is at most the square of the number of ids. */
  lemma {:induction false} CrowdingBound(group: Id -> nat, ids: set<Id>, n: nat)
    ensures Crowding(group, ids, n) <= Square(|ids|)
    decreases |ids|
  {
    if ids == {} {
      EmptyCrowding(group, n);
    } else {
      var e :| e in ids;
      var rest := ids - {e};
      assert rest + {e} == ids;
      CrowdingWith(group, rest, e, n);
      CrowdingBound(group, rest, n);
      ClassCount(group, rest, group(e));
      SquareOfNext(|rest|);
    }
  }

  lemma {:induction false} EmptyCrowding(group: Id -> nat, n: nat)
    ensures Crowding(group, {}, n) == 0
  {
    if n > 0 {
      EmptyCrowding(group, n - 1);
      assert InClass(group, {}, n - 1) == {};
    }
  }

  lemma ClassCount(group: Id -> nat, ids: set<Id>, g: nat)
    ensures Count(group, ids, g) <= |ids|
  {
    var rest := ids - InClass(group, ids, g);
    assert ids == InClass(group, ids, g) + rest;
  }
}
