/** The ids nearest to a target, by sorting and by rank. */
module Nearest {

  import opened KeySpace

  /** The members of `ids` strictly nearer to the target than `e`. */
  ghost function Closer(target: Id, ids: set<Id>, e: Id): set<Id> {
    set f | f in ids && Xor(target, f) < Xor(target, e)
  }

  /** The `k` nearest members: those with fewer than `k` members nearer than they are. */
  ghost function Top(k: nat, target: Id, ids: set<Id>): set<Id> {
    set e | e in ids && |Closer(target, ids, e)| < k
  }

  ghost predicate Ascending(target: Id, s: seq<Id>) {
    forall i, j :: 0 <= i < j < |s| ==> Xor(target, s[i]) < Xor(target, s[j])
  }

  ghost predicate Distinct(s: seq<Id>) {
    forall i, j :: 0 <= i < j < |s| ==> s[i] != s[j]
  }

  function Members(s: seq<Id>): set<Id> {
    set e | e in s
  }

  /** `sort` with the distance comparator, as one insertion after another. */
  function Insert(target: Id, s: seq<Id>, e: Id): seq<Id> {
    if s == [] then [e]
    else if Xor(target, s[0]) < Xor(target, e) then [s[0]] + Insert(target, s[1..], e)
    else [e] + s
  }

  function Sort(target: Id, s: seq<Id>): seq<Id> {
    if s == [] then [] else Insert(target, Sort(target, s[..|s| - 1]), s[|s| - 1])
  }

  lemma {:induction false} InsertKeeps(target: Id, s: seq<Id>, e: Id)
    ensures multiset(Insert(target, s, e)) == multiset(s) + multiset{e}
  {
    hide Xor;
    if s != [] && Xor(target, s[0]) < Xor(target, e) {
      InsertKeeps(target, s[1..], e);
      MultisetCons(s[0], s[1..]);
      MultisetCons(s[0], Insert(target, s[1..], e));
      assert s == [s[0]] + s[1..];
    }
  }

  lemma MultisetCons(e: Id, s: seq<Id>)
    ensures multiset([e] + s) == multiset{e} + multiset(s)
  {
  }

  lemma AscendingCons(target: Id, e: Id, rest: seq<Id>)
    requires Ascending(target, rest)
    requires forall i :: 0 <= i < |rest| ==> Xor(target, e) < Xor(target, rest[i])
    ensures Ascending(target, [e] + rest)
  {
    hide Xor;
  }

  lemma AscendingTail(target: Id, s: seq<Id>)
    requires Ascending(target, s) && s != []
    ensures Ascending(target, s[1..])
    ensures forall i :: 0 <= i < |s[1..]| ==> Xor(target, s[0]) < Xor(target, s[1..][i])
  {
    hide Xor;
  }

  lemma InsertMembers(target: Id, s: seq<Id>, e: Id, f: Id)
    requires f in Insert(target, s, e)
    ensures f == e || f in s
  {
    InsertKeeps(target, s, e);
    assert f in multiset(Insert(target, s, e));
  }

  lemma {:induction false} InsertOrders(target: Id, s: seq<Id>, e: Id)
    requires Ascending(target, s) && e !in s
    ensures Ascending(target, Insert(target, s, e))
  {
    hide Xor, Ascending;
    if s == [] {
      AscendingOne(target, e);
    } else if Xor(target, s[0]) < Xor(target, e) {
      var rest := Insert(target, s[1..], e);
      AscendingTail(target, s);
      InsertOrders(target, s[1..], e);
      forall i | 0 <= i < |rest| ensures Xor(target, s[0]) < Xor(target, rest[i]) {
        InsertMembers(target, s[1..], e, rest[i]);
      }
      AscendingCons(target, s[0], rest);
    } else {
      if Xor(target, s[0]) == Xor(target, e) {
        XorInjective(target, s[0], e);
      }
      AscendingTail(target, s);
      forall i | 0 <= i < |s| ensures Xor(target, e) < Xor(target, s[i]) {
        assert i > 0 ==> s[i] == s[1..][i - 1];
      }
      AscendingCons(target, e, s);
    }
  }

  lemma AscendingOne(target: Id, e: Id)
    ensures Ascending(target, [e])
  {
  }

  lemma SameMembers(a: seq<Id>, b: seq<Id>)
    requires multiset(a) == multiset(b)
    ensures |a| == |b| && Members(a) == Members(b)
  {
    assert |multiset(a)| == |a| && |multiset(b)| == |b|;
    forall e ensures e in a <==> e in b {
      assert e in multiset(a) <==> e in multiset(b);
    }
  }

  lemma {:induction false} SortKeeps(target: Id, s: seq<Id>)
    ensures multiset(Sort(target, s)) == multiset(s)
    ensures |Sort(target, s)| == |s| && Members(Sort(target, s)) == Members(s)
  {
    hide Insert, Members;
    if s != [] {
      var init, last := s[..|s| - 1], s[|s| - 1];
      SortKeeps(target, init);
      InsertKeeps(target, Sort(target, init), last);
      assert s == init + [last];
    }
    SameMembers(Sort(target, s), s);
  }

  /** Sorting puts distinct ids in strictly ascending distance. */
  lemma {:induction false} SortOrders(target: Id, s: seq<Id>)
    requires Distinct(s)
    ensures Ascending(target, Sort(target, s))
  {
    hide Xor;
    if s != [] {
      var init, last := s[..|s| - 1], s[|s| - 1];
      SortOrders(target, init);
      SortKeeps(target, init);
      assert last !in Members(init);
      assert last !in Members(Sort(target, init));
      InsertOrders(target, Sort(target, init), last);
    }
  }

  lemma {:induction false} MembersCount(s: seq<Id>)
    requires Distinct(s)
    ensures |Members(s)| == |s|
  {
    if s == [] {
      assert Members(s) == {};
    } else {
      var init, last := s[..|s| - 1], s[|s| - 1];
      MembersCount(init);
      assert s == init + [last];
      assert Members(s) == Members(init) + {last};
      assert last !in init;
    }
  }

  /** The list without an id. */
  function Without(s: seq<Id>, e: Id): (r: seq<Id>)
    ensures forall f :: f in s && f != e ==> f in r
  {
    if s == [] then [] else if s[0] == e then Without(s[1..], e) else [s[0]] + Without(s[1..], e)
  }

  lemma {:induction false} WithoutFacts(s: seq<Id>, e: Id)
    requires Distinct(s)
    ensures Distinct(Without(s, e)) && Members(Without(s, e)) == Members(s) - {e}
    ensures |Without(s, e)| == |s| - if e in s then 1 else 0
  {
    if s != [] {
      WithoutFacts(s[1..], e);
      assert Members(s) == {s[0]} + Members(s[1..]);
      assert s[0] !in Members(s[1..]);
      var rest := Without(s[1..], e);
      assert s[0] !in Members(rest);
      assert Members([s[0]] + rest) == {s[0]} + Members(rest);
      if s[0] == e {
        assert Without(s[1..], e) == Without(s, e);
      }
    }
  }

  lemma Appended(s: seq<Id>, e: Id)
    requires Distinct(s) && e !in s
    ensures Distinct(s + [e]) && Members(s + [e]) == Members(s) + {e}
    ensures forall f :: f in s + [e] <==> f in s || f == e
  {
  }

  lemma AscendingIsDistinct(target: Id, s: seq<Id>)
    requires Ascending(target, s)
    ensures Distinct(s)
  {
  }

  /** In ascending order, exactly the ids before a place are nearer than the one in it. */
  lemma RankInOrder(target: Id, s: seq<Id>, i: nat)
    requires Ascending(target, s) && i < |s|
    ensures Closer(target, Members(s), s[i]) == Members(s[..i])
    ensures |Closer(target, Members(s), s[i])| == i
  {
    hide Xor;
    forall e ensures e in Closer(target, Members(s), s[i]) <==> e in Members(s[..i]) {
      if e in Closer(target, Members(s), s[i]) {
        var j :| 0 <= j < |s| && s[j] == e;
        assert j < i;
        assert s[..i][j] == e;
      }
    }
    AscendingIsDistinct(target, s[..i]);
    MembersCount(s[..i]);
  }

  /** The first `k` of the sorted ids are the `k` nearest. */
  lemma PrefixIsTop(target: Id, s: seq<Id>, k: nat)
    requires Ascending(target, s)
    ensures k <= |s| ==> Members(s[..k]) == Top(k, target, Members(s))
    ensures k >= |s| ==> Members(s) == Top(k, target, Members(s))
  {
    hide Xor;
    var n := if k < |s| then k else |s|;
    forall e ensures e in Members(s[..n]) <==> e in Top(k, target, Members(s)) {
      if e in Members(s[..n]) {
        var i :| 0 <= i < n && s[..n][i] == e;
        RankInOrder(target, s, i);
      }
      if e in Top(k, target, Members(s)) {
        var i :| 0 <= i < |s| && s[i] == e;
        RankInOrder(target, s, i);
        assert s[..n][i] == e;
      }
    }
    assert s[..|s|] == s;
  }

  lemma {:induction false} Listing(ids: set<Id>) returns (s: seq<Id>)
    ensures Distinct(s) && Members(s) == ids && |s| == |ids|
  {
    if ids == {} {
      s := [];
    } else {
      var e :| e in ids;
      var rest := Listing(ids - {e});
      s := rest + [e];
      assert Members(s) == Members(rest) + {e};
    }
  }

  lemma Ordered(target: Id, ids: set<Id>) returns (s: seq<Id>)
    ensures Ascending(target, s) && Members(s) == ids && |s| == |ids|
  {
    var l := Listing(ids);
    SortOrders(target, l);
    SortKeeps(target, l);
    s := Sort(target, l);
  }

  lemma TopCount(k: nat, target: Id, ids: set<Id>)
    ensures |Top(k, target, ids)| == if |ids| < k then |ids| else k
  {
    hide Xor;
    var s := Ordered(target, ids);
    PrefixIsTop(target, s, k);
    var n := if k < |s| then k else |s|;
    AscendingIsDistinct(target, s[..n]);
    MembersCount(s[..n]);
    assert s[..|s|] == s;
  }

  lemma SubsetCount(a: set<Id>, b: set<Id>)
    requires a <= b
    ensures |a| <= |b|
    ensures a != b ==> |a| < |b|
  {
    var rest := b - a;
    assert b == a + rest;
    assert a != b ==> rest != {};
  }

  lemma CloserMonotone(target: Id, a: set<Id>, b: set<Id>, e: Id, f: Id)
    requires a <= b && Xor(target, e) <= Xor(target, f)
    ensures Closer(target, a, e) <= Closer(target, b, f)
    ensures |Closer(target, a, e)| <= |Closer(target, b, f)|
  {
    hide Xor;
    SubsetCount(Closer(target, a, e), Closer(target, b, f));
  }

  /** Every top member is nearer than every member outside the top. */
  lemma TopIsCloser(k: nat, target: Id, ids: set<Id>, e: Id, f: Id)
    requires e in Top(k, target, ids) && f in ids && f !in Top(k, target, ids)
    ensures Xor(target, e) < Xor(target, f)
  {
    hide Xor;
    if Xor(target, f) <= Xor(target, e) {
      CloserMonotone(target, ids, ids, f, e);
    }
  }

  /** Dropping ids from outside the `k` nearest leaves the `k` nearest as they were. */
  lemma TopKept(k: nat, target: Id, few: set<Id>, all: set<Id>)
    requires Top(k, target, all) <= few <= all
    ensures Top(k, target, few) == Top(k, target, all)
  {
    hide Xor;
    var top := Top(k, target, all);
    TopCount(k, target, all);
    forall e | e in few ensures e in Top(k, target, few) <==> e in top {
      CloserMonotone(target, few, all, e, e);
      if e !in top {
        forall f | f in top ensures f in Closer(target, few, e) {
          TopIsCloser(k, target, all, f, e);
        }
        SubsetCount(top, Closer(target, few, e));
        SubsetCount(Closer(target, all, e), all);
      }
    }
  }

  /** With at most `k` ids, all of them are among the `k` nearest. */
  lemma TopOfFew(k: nat, target: Id, ids: set<Id>)
    requires |ids| <= k
    ensures Top(k, target, ids) == ids
  {
    forall e | e in ids ensures e in Top(k, target, ids) {
      assert e !in Closer(target, ids, e);
      SubsetCount(Closer(target, ids, e), ids);
    }
  }

  // ---- the k-th nearest, and one more id ----

  ghost predicate IsKth(k: nat, target: Id, ids: set<Id>, f: Id) {
    k >= 1 && f in ids && |Closer(target, ids, f)| == k - 1
  }

  /** A nearer member has fewer members before it. */
  lemma FewerCloser(target: Id, ids: set<Id>, e: Id, f: Id)
    requires e in ids && Xor(target, e) < Xor(target, f)
    ensures |Closer(target, ids, e)| < |Closer(target, ids, f)|
  {
    hide Xor;
    assert e !in Closer(target, ids, e);
    SubsetCount(Closer(target, ids, e) + {e}, Closer(target, ids, f));
  }

  /** The k-th nearest is the farthest of the `k` nearest. */
  lemma KthIsFarthest(k: nat, target: Id, ids: set<Id>, f: Id, e: Id)
    requires IsKth(k, target, ids, f) && e in ids
    ensures e in Top(k, target, ids) <==> Xor(target, e) <= Xor(target, f)
  {
    hide Xor, Closer;
    if Xor(target, e) <= Xor(target, f) {
      CloserMonotone(target, ids, ids, e, f);
    } else {
      FewerCloser(target, ids, f, e);
    }
  }

  lemma CloserWithOneMore(target: Id, ids: set<Id>, s: Id, e: Id)
    requires s !in ids
    ensures Closer(target, ids + {s}, e) ==
            Closer(target, ids, e) + if Xor(target, s) < Xor(target, e) then {s} else {}
    ensures |Closer(target, ids + {s}, e)| ==
            |Closer(target, ids, e)| + if Xor(target, s) < Xor(target, e) then 1 else 0
  {
    hide Xor;
    assert s !in Closer(target, ids, e);
    assert Closer(target, ids + {s}, e) ==
           Closer(target, ids, e) + if Xor(target, s) < Xor(target, e) then {s} else {};
  }

  /** An id nearer than the k-th nearest takes its place among the `k` nearest. */
  lemma TopDisplaced(k: nat, target: Id, ids: set<Id>, f: Id, s: Id)
    requires IsKth(k, target, ids, f) && s !in ids && Xor(target, s) < Xor(target, f)
    ensures Top(k, target, ids + {s}) == Top(k, target, ids) - {f} + {s}
  {
    hide Xor, Closer;
    forall e | e in ids + {s} ensures e in Top(k, target, ids + {s}) <==> e in Top(k, target, ids) - {f} + {s} {
      CloserWithOneMore(target, ids, s, e);
      if e == s {
        CloserMonotone(target, ids, ids, s, f);
      } else if e != f {
        KthIsFarthest(k, target, ids, f, e);
        if Xor(target, e) == Xor(target, f) {
          XorInjective(target, e, f);
        }
        if Xor(target, e) < Xor(target, f) {
          FewerCloser(target, ids, e, f);
        }
      }
    }
  }

  /** An id no nearer than the k-th nearest stays outside the `k` nearest. */
  lemma TopUnmoved(k: nat, target: Id, ids: set<Id>, f: Id, s: Id)
    requires IsKth(k, target, ids, f) && s !in ids && Xor(target, s) >= Xor(target, f)
    ensures Top(k, target, ids + {s}) == Top(k, target, ids)
  {
    hide Xor;
    if Xor(target, s) == Xor(target, f) {
      XorInjective(target, s, f);
    }
    forall e | e in ids + {s} ensures e in Top(k, target, ids + {s}) <==> e in Top(k, target, ids) {
      CloserWithOneMore(target, ids, s, e);
      if e == s {
        assert Closer(target, ids, f) + {f} <= Closer(target, ids, s);
        SubsetCount(Closer(target, ids, f) + {f}, Closer(target, ids, s));
      } else {
        KthIsFarthest(k, target, ids, f, e);
      }
    }
  }

  // ---- sums of distances ----

  ghost function SumDistances(target: Id, ids: set<Id>): nat {
    if ids == {} then 0 else var e :| e in ids; Xor(target, e) + SumDistances(target, ids - {e})
  }

  lemma {:induction false} SumWithout(target: Id, ids: set<Id>, e: Id)
    requires e in ids
    ensures SumDistances(target, ids) == Xor(target, e) + SumDistances(target, ids - {e})
    decreases |ids|
  {
    hide Xor;
    var p :| p in ids && SumDistances(target, ids) == Xor(target, p) + SumDistances(target, ids - {p});
    if p != e {
      SumWithout(target, ids - {p}, e);
      SumWithout(target, ids - {e}, p);
      assert ids - {p} - {e} == ids - {e} - {p};
    }
  }
}
