/** The iterative search for the K nearest ids, and the responder's bounded insertion. */
module ClosestSearch {

  import opened KeySpace
  import opened Nearest
  import opened Options

  // ---- the responder ----

  /** What the first K of the sorted ids are. */
  function KNearest(target: Id, ids: seq<Id>, k: nat): seq<Id> {
    Take(Sort(target, ids), k)
  }

  function Take(s: seq<Id>, k: nat): seq<Id> {
    if k <= |s| then s[..k] else s
  }

  /** The place a scan from the front finds for an id: before the first that is not nearer. */
  method PlaceOf(target: Id, top: seq<Id>, e: Id) returns (i: nat)
    ensures i <= |top| && top[..i] + [e] + top[i..] == Insert(target, top, e)
  {
    hide Xor, Insert;
    i := 0;
    assert top[0..] == top;
    while i < |top| && Xor(target, top[i]) < Xor(target, e)
      invariant i <= |top|
      invariant top[..i] + Insert(target, top[i..], e) == Insert(target, top, e)
    {
      InsertStep(target, top[i..], e);
      assert top[i..][1..] == top[i + 1..];
      assert top[..i] + [top[i]] == top[..i + 1];
      i := i + 1;
    }
    InsertStep(target, top[i..], e);
  }

  lemma InsertStep(target: Id, s: seq<Id>, e: Id)
    ensures Insert(target, s, e) ==
            if s != [] && Xor(target, s[0]) < Xor(target, e) then [s[0]] + Insert(target, s[1..], e) else [e] + s
  {
    hide Xor;
  }

  lemma {:induction false} InsertLength(target: Id, s: seq<Id>, e: Id)
    ensures |Insert(target, s, e)| == |s| + 1
  {
    if s != [] && Xor(target, s[0]) < Xor(target, e) {
      InsertLength(target, s[1..], e);
    }
  }

  /** Inserting into the first K and cutting back to K is inserting into all and cutting to K. */
  lemma {:induction false} InsertThenTake(target: Id, s: seq<Id>, e: Id, k: nat)
    ensures Take(Insert(target, s, e), k) == Take(Insert(target, Take(s, k), e), k)
  {
    hide Xor;
    if k == 0 || s == [] {
    } else if Xor(target, s[0]) < Xor(target, e) {
      InsertThenTake(target, s[1..], e, k - 1);
      var rest, cut := Insert(target, s[1..], e), Insert(target, Take(s[1..], k - 1), e);
      assert Take(s, k)[1..] == Take(s[1..], k - 1);
      assert Take([s[0]] + rest, k) == [s[0]] + Take(rest, k - 1);
      assert Take([s[0]] + cut, k) == [s[0]] + Take(cut, k - 1);
    } else {
      assert Take([e] + s, k) == [e] + Take(s, k - 1);
      assert Take([e] + Take(s, k), k) == [e] + Take(Take(s, k), k - 1);
      assert Take(Take(s, k), k - 1) == Take(s, k - 1);
    }
  }

  /** An id no nearer than the last of a full list does not enter its first K. */
  lemma {:induction false} FarStaysOut(target: Id, s: seq<Id>, e: Id)
    requires Ascending(target, s) && s != [] && Xor(target, e) > Xor(target, s[|s| - 1])
    ensures Insert(target, s, e) == s + [e]
  {
    hide Xor;
    if |s| > 1 {
      FarStaysOut(target, s[1..], e);
      assert s == [s[0]] + s[1..];
    } else {
      assert s == [s[0]];
    }
  }

  /** `find_closest_set`: K of zero is read past the front of an empty list, and throws once there is a peer to compare. */
  method FindClosestSet(target: Id, table: seq<Id>, k: nat) returns (top: Option<seq<Id>>)
    requires Distinct(table)
    ensures top.None? <==> k == 0 && table != []
    ensures top.Some? ==> top.value == KNearest(target, table, k)
  {
    hide Xor;
    var best: seq<Id> := [];
    for n := 0 to |table|
      invariant k == 0 ==> n == 0
      invariant best == KNearest(target, table[..n], k)
    {
      var e := table[n];
      ghost var seen := table[..n];
      assert table[..n + 1][..n] == seen;
      assert Sort(target, table[..n + 1]) == Insert(target, Sort(target, seen), e);
      InsertThenTake(target, Sort(target, seen), e, k);
      assert KNearest(target, table[..n + 1], k) == Take(Insert(target, best, e), k);
      InsertLength(target, best, e);
      if |best| < k {
        var i := PlaceOf(target, best, e);
        best := best[..i] + [e] + best[i..];
      } else if k == 0 {
        return None;
      } else if Xor(target, e) < Xor(target, best[k - 1]) {
        var i := PlaceOf(target, best, e);
        best := best[..i] + [e] + best[i..];
        best := best[..|best| - 1];
      } else {
        FullAndFar(target, seen, k, e);
      }
    }
    assert table[..|table|] == table;
    return Some(best);
  }

  lemma FullAndFar(target: Id, seen: seq<Id>, k: nat, e: Id)
    requires Distinct(seen) && e !in seen && k >= 1
    requires var best := KNearest(target, seen, k); |best| >= k && Xor(target, e) >= Xor(target, best[k - 1])
    ensures Take(Insert(target, KNearest(target, seen, k), e), k) == KNearest(target, seen, k)
  {
    hide Xor;
    var best := KNearest(target, seen, k);
    SortOrders(target, seen);
    SortKeeps(target, seen);
    assert best[k - 1] in Members(Sort(target, seen)) && e !in Members(seen);
    if Xor(target, e) == Xor(target, best[k - 1]) {
      XorInjective(target, e, best[k - 1]);
    }
    FarStaysOut(target, best, e);
  }

  // ---- the searcher ----

  function Unvisited(s: seq<Id>, visited: set<Id>): (r: seq<Id>)
    ensures forall e :: e in r <==> e in s && e !in visited
    ensures |r| <= |s|
  {
    if s == [] then []
    else (if s[0] in visited then [] else [s[0]]) + Unvisited(s[1..], visited)
  }

  lemma {:induction false} UnvisitedDistinct(s: seq<Id>, visited: set<Id>)
    requires Distinct(s)
    ensures Distinct(Unvisited(s, visited))
  {
    if s != [] {
      UnvisitedDistinct(s[1..], visited);
      assert s[0] !in s[1..];
    }
  }

  /** What a round asks: unvisited ids of the first K, filled up from beyond them. */
  function ToQuery(sorted: seq<Id>, k: nat, alpha: nat, visited: set<Id>): seq<Id> {
    var topK := Take(sorted, k);
    var inTop := Take(Unvisited(topK, visited), alpha);
    inTop + Take(Unvisited(sorted[|topK|..], visited), alpha - |inTop|)
  }

  lemma DistinctJoined(a: seq<Id>, b: seq<Id>)
    requires Distinct(a) && Distinct(b) && forall e :: e in a ==> e !in b
    ensures Distinct(a + b)
  {
    forall i, j | 0 <= i < j < |a + b| ensures (a + b)[i] != (a + b)[j] {
      if i < |a| <= j {
        assert a[i] in a && b[j - |a|] in b;
      }
    }
  }

  lemma ToQueryFacts(sorted: seq<Id>, k: nat, alpha: nat, visited: set<Id>)
    requires Distinct(sorted)
    ensures Distinct(ToQuery(sorted, k, alpha, visited))
    ensures forall e :: e in ToQuery(sorted, k, alpha, visited) ==> e in sorted && e !in visited
    ensures alpha >= 1 && ToQuery(sorted, k, alpha, visited) == [] ==> forall e :: e in sorted ==> e in visited
  {
    var topK := Take(sorted, k);
    var beyond := sorted[|topK|..];
    UnvisitedDistinct(topK, visited);
    UnvisitedDistinct(beyond, visited);
    var a, b := Take(Unvisited(topK, visited), alpha), Unvisited(beyond, visited);
    forall e | e in a ensures e !in b {
      assert e in topK;
      assert e !in beyond;
    }
    assert sorted == topK + beyond;
    DistinctJoined(a, Take(b, alpha - |a|));
    if alpha >= 1 && ToQuery(sorted, k, alpha, visited) == [] {
      assert Unvisited(topK, visited) == [];
      assert Unvisited(beyond, visited) == [];
      forall e | e in sorted ensures e in visited {
        assert e in topK || e in beyond;
      }
    }
  }

  lemma {:induction false} UnvisitedJoined(a: seq<Id>, b: seq<Id>, visited: set<Id>)
    ensures Unvisited(a + b, visited) == Unvisited(a, visited) + Unvisited(b, visited)
  {
    hide Unvisited;
    if a == [] {
      assert a + b == b && Unvisited(a, visited) == [];
    } else {
      var e, rest := a[0], a[1..];
      UnvisitedJoined(rest, b, visited);
      UnvisitedCons(e, rest, visited);
      UnvisitedCons(e, rest + b, visited);
      assert a == [e] + rest && a + b == [e] + (rest + b);
    }
  }

  lemma UnvisitedCons(e: Id, s: seq<Id>, visited: set<Id>)
    ensures Unvisited([e] + s, visited) == (if e in visited then [] else [e]) + Unvisited(s, visited)
  {
    assert ([e] + s)[1..] == s;
  }

  lemma {:induction false} UnvisitedAscending(target: Id, s: seq<Id>, visited: set<Id>)
    requires Ascending(target, s)
    ensures Ascending(target, Unvisited(s, visited))
  {
    hide Xor;
    if s != [] {
      AscendingTail(target, s);
      UnvisitedAscending(target, s[1..], visited);
      if s[0] !in visited {
        var rest := Unvisited(s[1..], visited);
        forall i | 0 <= i < |rest| ensures Xor(target, s[0]) < Xor(target, rest[i]) {
          assert rest[i] in s[1..];
        }
        AscendingCons(target, s[0], rest);
      }
    }
  }

  lemma TakeJoined(a: seq<Id>, b: seq<Id>, n: nat)
    ensures Take(a + b, n) == Take(a, n) + Take(b, n - |Take(a, n)|)
  {
  }

  /** A round asks the alpha nearest of the ids heard of and not yet visited, whether among the first K or beyond them. */
  lemma AsksTheNearest(target: Id, heard: seq<Id>, k: nat, alpha: nat, visited: set<Id>)
    requires Distinct(heard)
    ensures Ascending(target, ToQuery(Sort(target, heard), k, alpha, visited))
    ensures Members(ToQuery(Sort(target, heard), k, alpha, visited)) == Top(alpha, target, Members(heard) - visited)
  {
    hide Sort, Xor, Ascending, Unvisited;
    var sorted := Sort(target, heard);
    SortOrders(target, heard);
    SortKeeps(target, heard);
    var topK := Take(sorted, k);
    var left := Unvisited(sorted, visited);
    assert sorted == topK + sorted[|topK|..];
    UnvisitedJoined(topK, sorted[|topK|..], visited);
    TakeJoined(Unvisited(topK, visited), Unvisited(sorted[|topK|..], visited), alpha);
    UnvisitedAscending(target, sorted, visited);
    UnvisitedMembers(sorted, visited);
    hide ToQuery;
    PrefixIsTop(target, left, alpha);
    TakeAscending(target, left, alpha);
  }

  lemma UnvisitedMembers(s: seq<Id>, visited: set<Id>)
    ensures Members(Unvisited(s, visited)) == Members(s) - visited
  {
  }

  lemma TakeAscending(target: Id, s: seq<Id>, n: nat)
    requires Ascending(target, s)
    ensures Ascending(target, Take(s, n))
  {
  }

  /** Everything the search has heard of, everything it has visited, and every probe it sent. */
  datatype Search = Search(heard: seq<Id>, visited: set<Id>, probes: seq<Id>)

  /** What the network does in a round: whom the search holds for dead or unconnected, and who answers what. */
  datatype Round = Round(skip: set<Id>, replies: map<Id, seq<Id>>)

  /** `Map` insertion: a new id goes to the end, a known one changes nothing. */
  function Hear(heard: seq<Id>, ids: seq<Id>): (r: seq<Id>)
    requires Distinct(heard)
    ensures Distinct(r) && heard <= r
    ensures forall e :: e in r <==> e in heard || e in ids
    ensures |r| == |heard| ==> r == heard
    decreases |ids|
  {
    if ids == [] then heard
    else if ids[0] in heard then Hear(heard, ids[1..])
    else Hear(heard + [ids[0]], ids[1..])
  }

  /** The search is complete: the nearest K of all it heard are visited. */
  ghost predicate Complete(target: Id, k: nat, s: Search) {
    Top(k, target, Members(s.heard)) <= s.visited
  }

  lemma NearestAreHeard(target: Id, heard: seq<Id>)
    requires Distinct(heard)
    ensures Ascending(target, Sort(target, heard)) && Members(Sort(target, heard)) == Members(heard)
    ensures forall e :: e in Sort(target, heard) <==> e in heard
  {
    SortOrders(target, heard);
    SortKeeps(target, heard);
    forall e ensures e in Sort(target, heard) <==> e in heard {
      assert e in Sort(target, heard) <==> e in Members(Sort(target, heard));
      assert e in heard <==> e in Members(heard);
    }
  }

  ghost predicate SearchOk(self: Id, s: Search) {
    && Distinct(s.heard)
    && Distinct(s.probes)
    && (forall e :: e in s.visited ==> e in s.heard)
    && (forall e :: e in s.probes ==> e in s.visited && e != self)
  }

  /** What the probed peers named, of those that answered. */
  ghost function Told(probed: set<Id>, r: Round): set<Id> {
    set p, e | p in probed && p in r.replies && e in r.replies[p] :: e
  }

  /** Whom a round visits: the alpha nearest heard of and not yet visited. */
  ghost function Asked(target: Id, alpha: nat, s: Search): set<Id> {
    Top(alpha, target, Members(s.heard) - s.visited)
  }

  ghost predicate RoundTaken(self: Id, target: Id, alpha: nat, s: Search, r: Round, t: Search) {
    var asked := Asked(target, alpha, s);
    && t.visited == s.visited + asked
    && Members(t.probes) == Members(s.probes) + (asked - r.skip - {self})
    && Members(t.heard) == Members(s.heard) + Told(asked - r.skip - {self}, r)
  }

  /** One probe round: each probed peer answers with ids, or not at all. */
  method Probe(self: Id, s: Search, toQuery: seq<Id>, r: Round) returns (t: Search)
    requires SearchOk(self, s) && Distinct(toQuery)
    requires forall e :: e in toQuery ==> e in s.heard && e !in s.visited
    ensures SearchOk(self, t)
    ensures t.visited == s.visited + Members(toQuery)
    ensures s.heard <= t.heard && (|t.heard| == |s.heard| ==> t.heard == s.heard)
    ensures Members(t.probes) == Members(s.probes) + (Members(toQuery) - r.skip - {self})
    ensures Members(t.heard) == Members(s.heard) + Told(Members(toQuery) - r.skip - {self}, r)
  {
    var probes := Unvisited(toQuery, r.skip + {self});
    UnvisitedDistinct(toQuery, r.skip + {self});
    UnvisitedMembers(toQuery, r.skip + {self});
    DistinctJoined(s.probes, probes);
    t := Search(s.heard, s.visited + Members(toQuery), s.probes + probes);
    assert Members(t.probes) == Members(s.probes) + Members(probes);
    assert Told(Members(probes[..0]), r) == {};
    for i := 0 to |probes|
      invariant SearchOk(self, t) && t.visited == s.visited + Members(toQuery) && t.probes == s.probes + probes
      invariant s.heard <= t.heard
      invariant Members(t.heard) == Members(s.heard) + Told(Members(probes[..i]), r)
    {
      var p := probes[i];
      OneMoreAnswer(probes, i, r);
      if p in r.replies {
        ghost var before := t.heard;
        t := t.(heard := Hear(t.heard, r.replies[p]));
        assert Members(t.heard) == Members(before) + Members(r.replies[p]);
      }
    }
    assert probes[..|probes|] == probes;
    assert Members(probes) == Members(toQuery) - r.skip - {self};
  }

  lemma OneMoreAnswer(probes: seq<Id>, i: nat, r: Round)
    requires i < |probes|
    ensures var p := probes[i];
            Told(Members(probes[..i + 1]), r) ==
            Told(Members(probes[..i]), r) + if p in r.replies then Members(r.replies[p]) else {}
  {
    var p := probes[i];
    assert Members(probes[..i + 1]) == Members(probes[..i]) + {p};
  }

  /** The first K of the sorted ids are the K nearest, in ascending distance. */
  lemma KNearestIsTop(target: Id, ids: seq<Id>, k: nat)
    requires Distinct(ids)
    ensures Ascending(target, KNearest(target, ids, k))
    ensures Members(KNearest(target, ids, k)) == Top(k, target, Members(ids))
    ensures |KNearest(target, ids, k)| == if k <= |ids| then k else |ids|
  {
    SortOrders(target, ids);
    SortKeeps(target, ids);
    PrefixIsTop(target, Sort(target, ids), k);
  }

  /** After round `i` there was nothing left to learn: the nearest K were visited before it, and it heard of nobody new. */
  ghost predicate Settled(target: Id, k: nat, trace: seq<Search>, i: nat)
    requires i + 1 < |trace|
  {
    i > 0 && Complete(target, k, trace[i]) && Members(trace[i + 1].heard) == Members(trace[i].heard)
  }

  /** The rounds of a search: each asks somebody, and none follows one after which it was settled. */
  ghost predicate Rounds(self: Id, target: Id, k: nat, alpha: nat, net: nat -> Round, trace: seq<Search>) {
    && trace != []
    && (forall i :: 0 <= i < |trace| - 1 ==> RoundTaken(self, target, alpha, trace[i], net(i), trace[i + 1]))
    && (forall i :: 0 <= i < |trace| - 1 ==> Asked(target, alpha, trace[i]) != {})
    && (forall i :: 0 <= i < |trace| - 2 ==> !Settled(target, k, trace, i))
  }

  ghost predicate Ended(target: Id, k: nat, alpha: nat, trace: seq<Search>)
    requires trace != []
  {
    Asked(target, alpha, trace[|trace| - 1]) == {} || (|trace| >= 2 && Settled(target, k, trace, |trace| - 2))
  }

  lemma RoundsGoOn(self: Id, target: Id, k: nat, alpha: nat, net: nat -> Round, trace: seq<Search>, t: Search)
    requires Rounds(self, target, k, alpha, net, trace)
    requires var n := |trace| - 1;
             && RoundTaken(self, target, alpha, trace[n], net(n), t) && Asked(target, alpha, trace[n]) != {}
             && (n > 0 ==> !Settled(target, k, trace, n - 1))
    ensures Rounds(self, target, k, alpha, net, trace + [t])
    ensures var n := |trace| - 1;
            Settled(target, k, trace + [t], n) <==> n > 0 && Complete(target, k, trace[n]) && Members(t.heard) == Members(trace[n].heard)
  {
    hide RoundTaken, Complete, Asked;
    var more := trace + [t];
    forall i | 0 <= i < |more| - 2 ensures !Settled(target, k, more, i) {
      assert Settled(target, k, more, i) == Settled(target, k, trace, i);
    }
  }

  lemma FoundNearest(self: Id, target: Id, k: nat, s: Search)
    requires SearchOk(self, s)
    ensures Ascending(target, KNearest(target, s.heard, k))
    ensures Members(KNearest(target, s.heard, k)) == Top(k, target, Members(s.heard))
  {
    KNearestIsTop(target, s.heard, k);
  }

  /** A search that has ended has visited the nearest K of all it heard, exactly when it asks anybody at all or K is 0. */
  lemma EndedIsComplete(self: Id, target: Id, k: nat, alpha: nat, net: nat -> Round, trace: seq<Search>)
    requires Rounds(self, target, k, alpha, net, trace) && Ended(target, k, alpha, trace)
    requires trace[0].visited == {} && trace[0].heard != []
    ensures Complete(target, k, trace[|trace| - 1]) <==> alpha >= 1 || k == 0
  {
    hide Top;
    var n := |trace| - 1;
    var heard := Members(trace[n].heard);
    if alpha == 0 {
      assert n > 0 ==> Asked(target, alpha, trace[0]) != {};
      TopCount(0, target, Members(trace[0].heard) - trace[0].visited);
      assert trace[0].heard[0] in heard;
      TopCount(k, target, heard);
    } else if Asked(target, alpha, trace[n]) == {} {
      TopCount(alpha, target, heard - trace[n].visited);
      assert |Asked(target, alpha, trace[n])| == 0;
      forall e | e in heard ensures e in trace[n].visited {
        assert e !in heard - trace[n].visited;
      }
      TopWithin(k, target, heard);
    } else {
      assert RoundTaken(self, target, alpha, trace[n - 1], net(n - 1), trace[n]);
    }
  }

  /** The peer was visited by round `r` and sent a probe. */
  ghost predicate ProbedIn(self: Id, net: nat -> Round, trace: seq<Search>, r: nat, p: Id)
    requires r + 1 < |trace|
  {
    p in trace[r + 1].visited && p !in trace[r].visited && p !in net(r).skip && p != self
  }

  /** Somebody probed in a round named the id. */
  ghost predicate Named(self: Id, net: nat -> Round, trace: seq<Search>, r: nat, e: Id)
    requires r + 1 < |trace|
  {
    exists p :: ProbedIn(self, net, trace, r, p) && p in net(r).replies && e in net(r).replies[p]
  }

  /** What a search has heard of is what it began with and what the peers it probed named, and it probed whom it visited but itself and those it skipped. */
  lemma {:induction false} HeardWhatWasTold(
    self: Id, target: Id, k: nat, alpha: nat, net: nat -> Round, trace: seq<Search>, i: nat, e: Id)
    requires Rounds(self, target, k, alpha, net, trace) && i < |trace|
    ensures e in trace[i].heard <==> e in trace[0].heard || exists r :: 0 <= r < i && Named(self, net, trace, r, e)
    ensures e in trace[i].probes <==> e in trace[0].probes || exists r :: 0 <= r < i && ProbedIn(self, net, trace, r, e)
  {
    hide Top;
    if i > 0 {
      HeardWhatWasTold(self, target, k, alpha, net, trace, i - 1, e);
      RoundTells(self, target, alpha, net, trace, i - 1, e);
      hide Named, ProbedIn;
    }
  }

  lemma RoundTells(self: Id, target: Id, alpha: nat, net: nat -> Round, trace: seq<Search>, r: nat, e: Id)
    requires r + 1 < |trace| && RoundTaken(self, target, alpha, trace[r], net(r), trace[r + 1])
    ensures e in trace[r + 1].heard <==> e in trace[r].heard || Named(self, net, trace, r, e)
    ensures e in trace[r + 1].probes <==> e in trace[r].probes || ProbedIn(self, net, trace, r, e)
  {
    hide Top;
    var s, t := trace[r], trace[r + 1];
    var asked := Asked(target, alpha, s);
    TopWithin(alpha, target, Members(s.heard) - s.visited);
    forall p ensures ProbedIn(self, net, trace, r, p) <==> p in asked - net(r).skip - {self} {
    }
    assert e in t.heard <==> e in Members(t.heard);
    assert e in s.heard <==> e in Members(s.heard);
    assert e in t.probes <==> e in Members(t.probes);
    assert e in s.probes <==> e in Members(s.probes);
  }

  lemma TopWithin(k: nat, target: Id, ids: set<Id>)
    ensures Top(k, target, ids) <= ids
  {
  }

  lemma StartOk(self: Id, table: seq<Id>)
    ensures var s := Search(Hear([], [self] + table), {}, []);
            SearchOk(self, s) && self in s.heard && Members(s.heard) == Members(table) + {self}
  {
  }

  lemma RoundsBegin(self: Id, target: Id, k: nat, alpha: nat, net: nat -> Round, t: Search)
    ensures Rounds(self, target, k, alpha, net, [t])
  {
  }

  /** Every one of the first K is visited exactly when none of them is left over. */
  lemma TopKVisited(target: Id, k: nat, s: Search)
    requires Distinct(s.heard)
    ensures Unvisited(KNearest(target, s.heard, k), s.visited) == [] <==> Complete(target, k, s)
  {
    hide Top, KNearest, Unvisited;
    KNearestIsTop(target, s.heard, k);
    UnvisitedMembers(KNearest(target, s.heard, k), s.visited);
    var left := Unvisited(KNearest(target, s.heard, k), s.visited);
    assert left != [] ==> left[0] in Members(left);
  }

  /** The body of a round: whether the nearest K were visited before it, and what it leaves, unless nobody is left to ask. */
  method TakeRound(self: Id, target: Id, k: nat, alpha: nat, s: Search, r: Round)
    returns (allVisited: bool, next: Option<Search>)
    requires SearchOk(self, s) && self in s.heard
    ensures allVisited <==> Complete(target, k, s)
    ensures next.None? <==> Asked(target, alpha, s) == {}
    ensures next.Some? ==> var t := next.value;
                           && RoundTaken(self, target, alpha, s, r, t) && SearchOk(self, t) && self in t.heard
                           && |s.heard| <= |t.heard|
                           && (|t.heard| == |s.heard| <==> Members(t.heard) == Members(s.heard))
  {
    hide Sort, Ascending, Top, Unvisited, ToQuery, Complete;
    var sorted := Sort(target, s.heard);
    NearestAreHeard(target, s.heard);
    AscendingIsDistinct(target, sorted);
    allVisited := Unvisited(Take(sorted, k), s.visited) == [];
    TopKVisited(target, k, s);
    var toQuery := ToQuery(sorted, k, alpha, s.visited);
    ToQueryFacts(sorted, k, alpha, s.visited);
    AsksTheNearest(target, s.heard, k, alpha, s.visited);
    assert toQuery != [] ==> toQuery[0] in Members(toQuery);
    if toQuery == [] {
      next := None;
    } else {
      var t := Probe(self, s, toQuery, r);
      MembersCount(s.heard);
      MembersCount(t.heard);
      next := Some(t);
    }
  }

  /**
   * `findKClosest`. Its rounds go on until nobody is left to ask, a round past completion heard of nobody new, or
   * they are used up; it returns the K nearest of all it heard. Ended early it has visited all it returns, exactly
   * when it asks anybody at all.
   */
  method FindKClosest(self: Id, target: Id, table: seq<Id>, k: nat, alpha: nat, maxRounds: nat, net: nat -> Round)
    returns (result: seq<Id>, ghost trace: seq<Search>)
    ensures Rounds(self, target, k, alpha, net, trace) && |trace| - 1 <= maxRounds
    ensures |trace| - 1 == maxRounds || Ended(target, k, alpha, trace)
    ensures Members(trace[0].heard) == Members(table) + {self} && trace[0].visited == {} && trace[0].probes == []
    ensures var s := trace[|trace| - 1];
            && SearchOk(self, s)
            && Ascending(target, result) && Members(result) == Top(k, target, Members(s.heard))
            && (Ended(target, k, alpha, trace) ==> (Complete(target, k, s) <==> alpha >= 1 || k == 0))
  {
    hide Rounds, RoundTaken, Settled, Asked, Complete, SearchOk, Ascending, Top, KNearest, Hear, Members;
    var t := Search(Hear([], [self] + table), {}, []);
    StartOk(self, table);
    var lastPoolSize, stable := 0, 0;
    trace := [t];
    RoundsBegin(self, target, k, alpha, net, t);
    var round := 0;
    while round < maxRounds
      invariant round <= maxRounds && |trace| == round + 1 && trace[round] == t
      invariant Rounds(self, target, k, alpha, net, trace)
      invariant trace[0] == Search(Hear([], [self] + table), {}, [])
      invariant SearchOk(self, t) && self in t.heard
      invariant lastPoolSize == if round == 0 then 0 else |t.heard|
      invariant round > 0 ==> !Settled(target, k, trace, round - 1)
      decreases maxRounds - round
    {
      var topKAllVisited, next := TakeRound(self, target, k, alpha, t, net(round));
      if next.None? {
        break;
      }
      RoundsGoOn(self, target, k, alpha, net, trace, next.value);
      t := next.value;
      trace := trace + [t];
      var grew := |t.heard| > lastPoolSize;
      lastPoolSize := |t.heard|;
      stable := if grew then 0 else stable + 1;
      round := round + 1;
      if topKAllVisited && stable >= 1 {
        break;
      }
    }
    result := KNearest(target, t.heard, k);
    FoundNearest(self, target, k, t);
    if Ended(target, k, alpha, trace) {
      EndedIsComplete(self, target, k, alpha, net, trace);
    }
  }
}
