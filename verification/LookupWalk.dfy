/** The lookup walk: one node's step, the way back along the path, and what every branch of a walk keeps. */
module LookupWalk {

  import opened KeySpace
  import opened Nearest
  import opened Options

  datatype Config = Config(maxHops: nat, reselect: bool)

  /** What a walk carries from node to node. */
  datatype Walk = Walk(source: Id, target: Id, hops: nat, path: seq<Id>, queried: set<Id>)

  /** What one node knows when a walk reaches it. */
  datatype Here = Here(
    id: Id, alive: bool,
    synaptome: seq<Id>, incoming: seq<Id>, incomingPool: seq<Id>, dead: set<Id>)

  datatype Reason = Found | NodeDown | MaxHops | Stalled | SendFailed | WalkDeadline | Stopped

  datatype Outcome =
    | Ended(reason: Reason)
    | Taken(frame: Walk)       // acknowledged; the result comes back along the path
    | Answered(frame: Walk)    // the next hop's own reply carries the result

  datatype Reply = Ack | NotAcked | NoHandler | EdgeLoss | OtherError | StepReply

  // ---- the way back ----

  /** `walkPrev`: the node before `self` on a path. */
  method WalkPrev(path: seq<Id>, self: Id) returns (prev: Option<Id>)
    ensures prev == Prev(path, self)
  {
    var i := |path| - 1;
    assert path[..|path|] == path;
    while i > 0
      invariant i < |path|
      invariant i >= 0 ==> Prev(path, self) == Prev(path[..i + 1], self)
      invariant i < 0 ==> path == []
    {
      assert path[..i + 1][..i] == path[..i];
      if path[i] == self {
        return Some(path[i - 1]);
      }
      i := i - 1;
    }
    return None;
  }

  function Prev(path: seq<Id>, self: Id): Option<Id> {
    if |path| <= 1 then None
    else if path[|path| - 1] == self then Some(path[|path| - 2])
    else Prev(path[..|path| - 1], self)
  }

  lemma {:induction false} PrevOnDistinct(path: seq<Id>, i: nat)
    requires Distinct(path) && i < |path|
    ensures Prev(path, path[i]) == if i == 0 then None else Some(path[i - 1])
  {
    if |path| >= 2 && i < |path| - 1 {
      PrevOnDistinct(path[..|path| - 1], i);
    }
  }

  /** Where a result is after `j` hand-backs from `self`. */
  function HandedBack(path: seq<Id>, self: Id, j: nat): Option<Id> {
    if j == 0 then Some(self)
    else match HandedBack(path, self, j - 1) { case None => None case Some(at) => Prev(path, at) }
  }

  /** On a path without repeats every hand-back moves one place nearer the originator, and reaches it. */
  lemma {:induction false} ResultReturns(path: seq<Id>, i: nat, j: nat)
    requires Distinct(path) && j <= i < |path|
    ensures HandedBack(path, path[i], j) == Some(path[i - j])
    ensures path[i - j] == path[0] <==> j == i
  {
    if j > 0 {
      ResultReturns(path, i, j - 1);
      PrevOnDistinct(path, i - j + 1);
    }
  }

  /** With a repeat on the path a result can circle and never come back. */
  lemma {:induction false} ResultCirclesOnRevisit(a: Id, b: Id, c: Id, j: nat)
    requires a != b && b != c && a != c
    ensures HandedBack([a, b, c, b], c, 2 * j) == Some(c)
  {
    var path := [a, b, c, b];
    assert path[..3] == [a, b, c] && path[..3][..2] == [a, b];
    assert Prev(path, b) == Some(c);
    assert Prev(path, c) == Prev(path[..3], c) == Some(b);
    if j > 0 {
      ResultCirclesOnRevisit(a, b, c, j - 1);
    }
  }

  // ---- a step ----

  function Extended(w: Walk, next: Id): Walk {
    w.(hops := w.hops + 1, path := w.path + [next], queried := w.queried + {next})
  }

  /** The walk as its holder has it: no id twice, the holder last, and everything visited marked as queried. */
  ghost predicate OnItsWay(cfg: Config, w: Walk, holder: Id) {
    && w.path != []
    && w.path[0] == w.source
    && w.path[|w.path| - 1] == holder
    && Distinct(w.path)
    && w.queried == Members(w.path)
    && w.hops == |w.path| - 1
    && w.hops <= cfg.maxHops
    && w.target !in w.path[..|w.path| - 1]
  }

  /** A hop the step may choose: unvisited, or the target itself. */
  ghost predicate Fresh(w: Walk, next: Id) {
    next !in w.queried || next == w.target
  }

  function Opening(self: Id, target: Id): Walk {
    Walk(self, target, 0, [self], {self})
  }

  lemma OpeningOnItsWay(cfg: Config, self: Id, target: Id)
    ensures OnItsWay(cfg, Opening(self, target), self)
  {
  }

  /** A forwarded walk is again on its way, at the next holder. */
  lemma StepKeepsWalk(cfg: Config, w: Walk, holder: Id, next: Id)
    requires OnItsWay(cfg, w, holder)
    requires holder != w.target && w.hops < cfg.maxHops && Fresh(w, next)
    ensures OnItsWay(cfg, Extended(w, next), next) && next !in w.path
  {
    var last := |w.path| - 1;
    assert w.path == w.path[..last] + [holder];
    assert next !in Members(w.path);
    assert Members(w.path + [next]) == Members(w.path) + {next};
    assert (w.path + [next])[..last + 1] == w.path;
  }

  /** Unvisited ids of `from` that are strictly nearer the target than this node. */
  function NearerUnvisited(w: Walk, here: Id, from: seq<Id>): (c: seq<Id>)
    ensures forall e :: e in c <==> e in from && e !in w.queried && Xor(e, w.target) < Xor(here, w.target)
  {
    if from == [] then []
    else
      var e := from[|from| - 1];
      NearerUnvisited(w, here, from[..|from| - 1]) +
      if e !in w.queried && Xor(e, w.target) < Xor(here, w.target) then [e] else []
  }

  /** The fallback: the unvisited, not dead id nearest the target. */
  method NearestUnvisited(w: Walk, from: seq<Id>, dead: set<Id>) returns (best: Option<Id>)
    ensures best.None? <==> forall e :: e in from ==> e in w.queried || e in dead
    ensures best.Some? ==> best.value in from && best.value !in w.queried && best.value !in dead
    ensures best.Some? ==> forall e :: e in from && e !in w.queried && e !in dead ==>
                             Xor(best.value, w.target) <= Xor(e, w.target)
  {
    best := None;
    for i := 0 to |from|
      invariant best.None? <==> forall e :: e in from[..i] ==> e in w.queried || e in dead
      invariant best.Some? ==> best.value in from[..i] && best.value !in w.queried && best.value !in dead
      invariant best.Some? ==> forall e :: e in from[..i] && e !in w.queried && e !in dead ==>
                                 Xor(best.value, w.target) <= Xor(e, w.target)
    {
      var e := from[i];
      if e !in w.queried && e !in dead {
        if best.None? || Xor(e, w.target) < Xor(best.value, w.target) {
          best := Some(e);
        }
      }
    }
    assert from[..|from|] == from;
  }

  /** Worth another try: neither tried nor visited nor dead-marked, and connected as far as the transport can say. */
  predicate Eligible(w: Walk, tried: set<Id>, dead: set<Id>, connected: Option<set<Id>>, e: Id) {
    && e !in tried && e !in w.queried && e !in dead
    && (connected.Some? ==> e in connected.value)
  }

  /** The nearest candidate still worth trying, or nothing when there is none. */
  ghost predicate PickIs(
    w: Walk, candidates: seq<Id>, tried: set<Id>, dead: set<Id>, connected: Option<set<Id>>, best: Option<Id>)
  {
    match best
    case None => forall e :: e in candidates ==> !Eligible(w, tried, dead, connected, e)
    case Some(b) =>
      && b in candidates && Eligible(w, tried, dead, connected, b)
      && forall e :: e in candidates && Eligible(w, tried, dead, connected, e) ==> Xor(b, w.target) <= Xor(e, w.target)
  }

  /** Re-selection. */
  method PickNext(w: Walk, candidates: seq<Id>, tried: set<Id>, dead: set<Id>, connected: Option<set<Id>>)
    returns (best: Option<Id>)
    ensures PickIs(w, candidates, tried, dead, connected, best)
    ensures best.Some? ==> best.value in candidates && best.value !in tried
  {
    hide Xor;
    best := None;
    for i := 0 to |candidates|
      invariant best.None? ==> forall e :: e in candidates[..i] ==> !Eligible(w, tried, dead, connected, e)
      invariant best.Some? ==> best.value in candidates[..i] && Eligible(w, tried, dead, connected, best.value)
      invariant best.Some? ==> forall e :: e in candidates[..i] && Eligible(w, tried, dead, connected, e) ==>
                                 Xor(best.value, w.target) <= Xor(e, w.target)
    {
      var e := candidates[i];
      if Eligible(w, tried, dead, connected, e) {
        if best.None? || Xor(e, w.target) < Xor(best.value, w.target) {
          best := Some(e);
        }
      }
    }
    assert candidates[..|candidates|] == candidates;
  }

  /** What is picked is neither tried nor visited, dead or cut off, and no other such candidate is nearer the target. */
  lemma PickIsNearestLeft(
    w: Walk, candidates: seq<Id>, tried: set<Id>, dead: set<Id>, connected: Option<set<Id>>, best: Option<Id>)
    requires PickIs(w, candidates, tried, dead, connected, best)
    ensures var out := tried + w.queried + dead;
            var left := set e | e in candidates && e !in out && (connected.Some? ==> e in connected.value);
            if best.None? then left == {} else best.value in left && Top(1, w.target, left) == {best.value}
  {
    hide Xor;
    var out := tried + w.queried + dead;
    var left := set e | e in candidates && e !in out && (connected.Some? ==> e in connected.value);
    if best.Some? {
      var b := best.value;
      assert Eligible(w, tried, dead, connected, b);
      forall e | e in left ensures b == e || Xor(w.target, b) < Xor(w.target, e) {
        assert Eligible(w, tried, dead, connected, e);
        XorSymmetric(b, w.target);
        XorSymmetric(e, w.target);
        if Xor(w.target, b) == Xor(w.target, e) {
          XorInjective(w.target, b, e);
        }
      }
      NearestIsTop(w.target, left, b);
    } else {
      assert forall e :: e in left ==> Eligible(w, tried, dead, connected, e);
    }
  }

  lemma NearestIsTop(target: Id, ids: set<Id>, b: Id)
    requires b in ids && forall e :: e in ids ==> b == e || Xor(target, b) < Xor(target, e)
    ensures Top(1, target, ids) == {b}
  {
    hide Xor;
    assert Closer(target, ids, b) == {};
    forall e | e in ids && e != b ensures e !in Top(1, target, ids) {
      assert b in Closer(target, ids, e);
    }
  }

  /** An id the step may try: an unvisited neighbour not known dead, or one of the incoming pool. */
  ghost predicate Offered(here: Here, w: Walk, e: Id) {
    e !in w.queried && (((e in here.synaptome || e in here.incoming) && e !in here.dead) || e in here.incomingPool)
  }

  ghost predicate IsNearer(here: Here, w: Walk, e: Id) {
    Offered(here, w, e) && Xor(e, w.target) < Xor(here.id, w.target)
  }

  ghost predicate HasNearer(here: Here, w: Walk) {
    exists e :: IsNearer(here, w, e)
  }

  /** A nearer neighbour of the table is known dead: it is evicted, and another may take its place. */
  ghost predicate LosesNearer(here: Here, w: Walk) {
    exists e :: e in here.synaptome && e !in w.queried && e in here.dead && Xor(e, w.target) < Xor(here.id, w.target)
  }

  /** No neighbour is nearer: the unvisited live one nearest the target, however far it is. */
  ghost predicate IsFallback(here: Here, w: Walk, e: Id) {
    && Escapes(here, w, e)
    && forall f :: Escapes(here, w, f) ==> Xor(e, w.target) <= Xor(f, w.target)
  }

  ghost predicate Escapes(here: Here, w: Walk, e: Id) {
    (e in here.synaptome || e in here.incoming) && e !in w.queried && e !in here.dead
  }

  /** A candidate: one of all the nearer ids when there are any, otherwise the fallback; a replacement is left open. */
  ghost predicate IsCandidate(here: Here, w: Walk, e: Id) {
    && e !in w.queried
    && (HasNearer(here, w) ==> Xor(e, w.target) < Xor(here.id, w.target))
    && (!LosesNearer(here, w) ==> if HasNearer(here, w) then IsNearer(here, w, e) else IsFallback(here, w, e))
  }

  /** The ids of `from` not known dead, and the ones known dead. */
  method SplitDead(from: seq<Id>, dead: set<Id>) returns (live: seq<Id>, gone: seq<Id>)
    ensures forall e :: e in live <==> e in from && e !in dead
    ensures forall e :: e in gone <==> e in from && e in dead
  {
    live, gone := [], [];
    for i := 0 to |from|
      invariant forall e :: e in live <==> e in from[..i] && e !in dead
      invariant forall e :: e in gone <==> e in from[..i] && e in dead
    {
      if from[i] in dead {
        gone := gone + [from[i]];
      } else {
        live := live + [from[i]];
      }
    }
    assert from[..|from|] == from;
  }

  /** `_evictAndReplace`, for each dead neighbour that was nearer: whoever takes its place is a candidate if nearer too. */
  method EvictAndReplace(here: Here, w: Walk, deadSynapses: seq<Id>) returns (replaced: seq<Id>, synaptome: seq<Id>)
    requires forall e :: e in deadSynapses ==> e in here.dead
    ensures forall e :: e in replaced ==> e !in w.queried && Xor(e, w.target) < Xor(here.id, w.target)
    ensures forall e :: e in here.synaptome ==> e in synaptome || e in here.dead
    ensures deadSynapses == [] ==> replaced == [] && synaptome == here.synaptome
  {
    hide Xor;
    replaced, synaptome := [], here.synaptome;
    for i := 0 to |deadSynapses|
      invariant forall e :: e in replaced ==> e !in w.queried && Xor(e, w.target) < Xor(here.id, w.target)
      invariant forall e :: e in here.synaptome ==> e in synaptome || e in here.dead
      invariant deadSynapses == [] ==> replaced == [] && synaptome == here.synaptome
    {
      synaptome := Without(synaptome, deadSynapses[i]);
      var repl: Option<Id> := *;
      if repl.Some? {
        synaptome := synaptome + [repl.value];
        if Xor(repl.value, w.target) < Xor(here.id, w.target) && repl.value !in w.queried {
          replaced := replaced + [repl.value];
        }
      }
    }
  }

  /** The nearer ids of the three tables without the dead, and the dead of the first. */
  method Nearer(here: Here, w: Walk) returns (nearer: seq<Id>, deadSynapses: seq<Id>)
    ensures forall e :: e in nearer <==> IsNearer(here, w, e)
    ensures deadSynapses != [] <==> LosesNearer(here, w)
    ensures forall e :: e in deadSynapses ==> e in here.dead
  {
    hide Xor;
    var live, gone := SplitDead(NearerUnvisited(w, here.id, here.synaptome), here.dead);
    var liveIncoming, _ := SplitDead(NearerUnvisited(w, here.id, here.incoming), here.dead);
    nearer, deadSynapses := live + liveIncoming + NearerUnvisited(w, here.id, here.incomingPool), gone;
    if deadSynapses != [] {
      assert deadSynapses[0] in deadSynapses;
    }
  }

  lemma NearerAreCandidates(here: Here, w: Walk, nearer: seq<Id>, replaced: seq<Id>)
    requires forall e :: e in nearer <==> IsNearer(here, w, e)
    requires forall e :: e in replaced ==> e !in w.queried && Xor(e, w.target) < Xor(here.id, w.target)
    requires replaced != [] ==> LosesNearer(here, w)
    ensures forall e :: e in nearer + replaced ==> IsCandidate(here, w, e)
    ensures nearer != [] <==> HasNearer(here, w)
  {
    hide Xor, LosesNearer, IsFallback;
    if nearer != [] {
      assert IsNearer(here, w, nearer[0]);
    }
  }

  /** The first loops of the step: nearer ids from the three tables, dead ones replaced, or the fallback. */
  method Candidates(here: Here, w: Walk) returns (candidates: seq<Id>)
    ensures forall e :: e in candidates ==> IsCandidate(here, w, e)
    ensures forall e :: IsNearer(here, w, e) ==> e in candidates
    ensures candidates == [] ==>
              forall e :: e in here.synaptome || e in here.incoming ==> e in w.queried || e in here.dead
  {
    hide Xor, LosesNearer, IsNearer, HasNearer;
    var nearer, deadSynapses := Nearer(here, w);
    var replaced, synaptome := EvictAndReplace(here, w, deadSynapses);
    NearerAreCandidates(here, w, nearer, replaced);
    candidates := nearer + replaced;
    if candidates == [] {
      var best := NearestUnvisited(w, synaptome + here.incoming, here.dead);
      if best.Some? {
        candidates := [best.value];
      }
    }
  }

  /** What one step may do with the walk it was handed. */
  ghost predicate StepResult(cfg: Config, here: Here, w: Walk, out: Outcome, after: Walk) {
    match out
    case Ended(NodeDown) => !here.alive && after == w
    case Ended(Found) => here.alive && here.id == w.target && after == w
    case Ended(MaxHops) => here.alive && here.id != w.target && w.hops >= cfg.maxHops && after == w
    case Ended(Stalled) =>
      && here.alive && here.id != w.target && w.hops < cfg.maxHops && after == w
      && !HasNearer(here, w)
      && forall e :: e in here.synaptome || e in here.incoming ==> e in w.queried || e in here.dead
    case Ended(SendFailed) =>
      && here.alive && here.id != w.target && w.hops < cfg.maxHops
      && if cfg.reselect then after == w else Forwards(cfg, here, w, after)
    case Ended(_) => false
    case Taken(frame) => Forwards(cfg, here, w, frame) && after == frame
    case Answered(frame) => Forwards(cfg, here, w, frame) && after == frame
  }

  /** The target is a neighbour not known dead. */
  predicate Direct(here: Here, w: Walk) {
    (w.target in here.synaptome || w.target in here.incoming) && w.target !in here.dead
  }

  /** The walk goes on: to the target when it is a neighbour, else to a candidate. */
  ghost predicate Forwards(cfg: Config, here: Here, w: Walk, frame: Walk) {
    && Sendable(cfg, here, w)
    && frame.path != []
    && var next := frame.path[|frame.path| - 1];
       && frame == Extended(w, next)
       && IsHop(here, w, next)
       && (Direct(here, w) && !cfg.reselect ==> next == w.target)
  }

  ghost predicate IsHop(here: Here, w: Walk, e: Id) {
    (Direct(here, w) && e == w.target) || IsCandidate(here, w, e)
  }

  lemma HopIsFresh(here: Here, w: Walk, e: Id)
    requires IsHop(here, w, e)
    ensures Fresh(w, e)
  {
  }

  /** A neighbour of the two tables the walk has not visited and no mark holds for dead. */
  predicate LiveNeighbour(here: Here, w: Walk, e: Id) {
    (e in here.synaptome || e in here.incoming) && e !in here.dead && e !in w.queried
  }

  /**
   * Where a step goes, as long as no dead neighbour of the table was nearer: to a nearer id when it knows a live
   * neighbour or one of the incoming pool that is, and then to such a one; otherwise to the live neighbour nearest the
   * target; and in any case to the target alone when that is a neighbour.
   */
  lemma HopOfStep(cfg: Config, here: Here, w: Walk, out: Outcome, after: Walk, e: Id)
    requires StepResult(cfg, here, w, out, after) && (out.Taken? || out.Answered?)
    requires forall d :: d in here.synaptome && d in here.dead && d !in w.queried ==>
               Xor(here.id, w.target) <= Xor(d, w.target)
    ensures after.path != []
    ensures var next := after.path[|after.path| - 1];
            && after == Extended(w, next)
            && (next != w.target ==>
                  && (LiveNeighbour(here, w, next) || (next in here.incomingPool && next !in w.queried))
                  && (LiveNeighbour(here, w, e) || (e in here.incomingPool && e !in w.queried) ==>
                        if Xor(e, w.target) < Xor(here.id, w.target) then Xor(next, w.target) < Xor(here.id, w.target)
                        else LiveNeighbour(here, w, e) ==>
                               || Xor(next, w.target) < Xor(here.id, w.target)
                               || (LiveNeighbour(here, w, next) && Xor(next, w.target) <= Xor(e, w.target))))
  {
    hide Xor;
    assert !LosesNearer(here, w);
    if LiveNeighbour(here, w, e) {
      assert Escapes(here, w, e);
    }
    if (LiveNeighbour(here, w, e) || (e in here.incomingPool && e !in w.queried)) && Xor(e, w.target) < Xor(here.id, w.target) {
      assert IsNearer(here, w, e);
    }
  }

  /** A step that stalls has no live neighbour left, and knows none nearer in the incoming pool. */
  lemma StalledHasNobody(cfg: Config, here: Here, w: Walk, after: Walk, e: Id)
    requires StepResult(cfg, here, w, Ended(Stalled), after)
    ensures !LiveNeighbour(here, w, e)
    ensures e in here.incomingPool && e !in w.queried ==> Xor(here.id, w.target) <= Xor(e, w.target)
  {
    hide Xor;
    assert IsNearer(here, w, e) ==> HasNearer(here, w);
  }

  ghost predicate Sendable(cfg: Config, here: Here, w: Walk) {
    here.alive && here.id != w.target && w.hops < cfg.maxHops
  }

  // ---- the send loop ----

  /** One turn of the send loop: the hop, what came of it, and the liveness a re-selection then read. */
  datatype Try = Try(next: Id, reply: Option<Reply>, connected: Option<set<Id>>, dead: set<Id>)

  /** The edge was dead: the hop was not connected and nothing was sent, or the send lost its edge. */
  predicate DeadEdge(t: Try) {
    t.reply.None? || t.reply == Some(EdgeLoss)
  }

  ghost function Tried(turns: seq<Try>): set<Id> {
    if turns == [] then {} else Tried(turns[..|turns| - 1]) + {turns[|turns| - 1].next}
  }

  /** What re-selection finds after the turns so far. */
  ghost predicate Repicked(w: Walk, candidates: seq<Id>, turns: seq<Try>, next: Option<Id>)
    requires turns != []
  {
    var t := turns[|turns| - 1];
    PickIs(w, candidates, Tried(turns), t.dead, t.connected, next)
  }

  /** The turns before this one ended in a dead edge, and re-selection picked this one's hop. */
  ghost predicate RetriedAt(cfg: Config, w: Walk, candidates: seq<Id>, tries: seq<Try>, i: nat)
    requires 0 < i < |tries|
  {
    cfg.reselect && DeadEdge(tries[i - 1]) && Repicked(w, candidates, tries[..i], Some(tries[i].next))
  }

  /** The turns of a send loop: it began with `first`, and each later hop was re-selected after a dead edge. */
  ghost predicate Turned(cfg: Config, w: Walk, candidates: seq<Id>, first: Id, tries: seq<Try>) {
    && (tries != [] ==> tries[0].next == first)
    && (|tries| > 1 ==> cfg.reselect)
    && forall i :: 0 < i < |tries| ==> RetriedAt(cfg, w, candidates, tries, i)
  }

  /** The loop goes on with this hop. */
  ghost predicate GoesOn(cfg: Config, w: Walk, candidates: seq<Id>, first: Id, tries: seq<Try>, next: Id) {
    if tries == [] then next == first
    else cfg.reselect && DeadEdge(tries[|tries| - 1]) && Repicked(w, candidates, tries, Some(next))
  }

  /** What the last turn came to. */
  ghost predicate LoopEnds(cfg: Config, w: Walk, candidates: seq<Id>, tries: seq<Try>, out: Outcome) {
    && tries != []
    && var t := tries[|tries| - 1];
       match out
       case Taken(frame) => t.reply == Some(Ack) && frame == Extended(w, t.next)
       case Answered(frame) => t.reply == Some(StepReply) && frame == Extended(w, t.next)
       case Ended(why) =>
         && why == SendFailed && t.reply != Some(Ack) && t.reply != Some(StepReply)
         && (cfg.reselect && DeadEdge(t) ==> Repicked(w, candidates, tries, None))
  }

  lemma {:induction false} TriedAre(turns: seq<Try>, e: Id)
    ensures e in Tried(turns) <==> exists u :: u in turns && u.next == e
  {
    if turns != [] {
      var init, last := turns[..|turns| - 1], turns[|turns| - 1];
      TriedAre(init, e);
      assert turns == init + [last];
    }
  }

  /** A candidate that a re-selection after these turns may take. */
  predicate LeftOver(w: Walk, candidates: seq<Id>, turns: seq<Try>, e: Id)
    requires turns != []
  {
    var t := turns[|turns| - 1];
    && e in candidates && e !in w.queried && e !in t.dead && (t.connected.Some? ==> e in t.connected.value)
    && forall u :: u in turns ==> u.next != e
  }

  /** With re-selection on, a hop without a channel or whose send lost its edge is followed by another while a candidate is left over. */
  lemma GivesUpOnlyWithNobodyLeft(cfg: Config, w: Walk, candidates: seq<Id>, tries: seq<Try>, out: Outcome, e: Id)
    requires LoopEnds(cfg, w, candidates, tries, out) && cfg.reselect && out.Ended?
    ensures tries != []
    ensures var reply := tries[|tries| - 1].reply;
            (reply.None? || reply == Some(EdgeLoss)) ==> !LeftOver(w, candidates, tries, e)
  {
    TriedAre(tries, e);
    var t := tries[|tries| - 1];
    assert LeftOver(w, candidates, tries, e) ==> Eligible(w, Tried(tries), t.dead, t.connected, e);
  }

  /** Each later hop follows a hop without a channel or a lost edge, and is the nearest candidate left over. */
  lemma RetriesTakeNearest(cfg: Config, w: Walk, candidates: seq<Id>, first: Id, tries: seq<Try>, i: nat, e: Id)
    requires Turned(cfg, w, candidates, first, tries) && 0 < i < |tries|
    ensures cfg.reselect && (tries[i - 1].reply.None? || tries[i - 1].reply == Some(EdgeLoss))
    ensures LeftOver(w, candidates, tries[..i], tries[i].next)
    ensures LeftOver(w, candidates, tries[..i], e) ==> Xor(tries[i].next, w.target) <= Xor(e, w.target)
  {
    hide Xor;
    assert RetriedAt(cfg, w, candidates, tries, i);
    TriedAre(tries[..i], e);
    TriedAre(tries[..i], tries[i].next);
  }

  lemma NoneIsNearer(here: Here, w: Walk, candidates: seq<Id>)
    requires forall e :: IsNearer(here, w, e) ==> e in candidates
    ensures candidates == [] ==> !HasNearer(here, w)
  {
    hide IsNearer;
  }

  /** `_lookupStep`: `acked` is the acknowledged walk, otherwise the recursive one. */
  method Step(cfg: Config, here: Here, w: Walk, acked: bool) returns (out: Outcome, after: Walk, ghost tries: seq<Try>)
    ensures StepResult(cfg, here, w, out, after)
    ensures out.Taken? ==> acked
    ensures tries != [] && Direct(here, w) ==> tries[0].next == w.target
    ensures out.Taken? || out.Answered? || out == Ended(SendFailed) <==> tries != []
    ensures |tries| > 1 ==> cfg.reselect
  {
    tries := [];
    if !here.alive {
      return Ended(NodeDown), w, [];
    }
    if Xor(here.id, w.target) == 0 {
      XorZero(here.id, w.target);
      return Ended(Found), w, [];
    }
    XorZero(here.id, w.target);
    if w.hops >= cfg.maxHops {
      return Ended(MaxHops), w, [];
    }
    var candidates := Candidates(here, w);
    NoneIsNearer(here, w, candidates);
    if candidates == [] {
      return Ended(Stalled), w, [];
    }
    assert candidates[0] in candidates;
    var next: Id :| next in candidates;
    if Direct(here, w) {
      next := w.target;
    }
    out, after, tries := SendOn(cfg, here, w, acked, candidates, next);
  }

  /** The send loop: the hop is tentative until a send issues; a dead edge is replaced when re-selection is on. */
  method SendOn(cfg: Config, here: Here, w: Walk, acked: bool, candidates: seq<Id>, first: Id)
    returns (out: Outcome, after: Walk, ghost tries: seq<Try>)
    requires Sendable(cfg, here, w)
    requires IsHop(here, w, first) && forall e :: e in candidates ==> IsHop(here, w, e)
    requires Direct(here, w) ==> first == w.target
    ensures StepResult(cfg, here, w, out, after)
    ensures out.Taken? ==> acked
    ensures Turned(cfg, w, candidates, first, tries) && LoopEnds(cfg, w, candidates, tries, out)
  {
    hide IsHop, Eligible, Xor, PickIs, Turned, Tried, NearerUnvisited, IsCandidate, Forwards, Left, HasNearer, Escapes;
    var next := first;
    var tried: set<Id> := {};
    after, tries := w, [];
    NoTurns(cfg, w, candidates, first);
    while true
      invariant IsHop(here, w, next) && (next == first || next in candidates) && next !in tried
      invariant tries == [] ==> next == first
      invariant tried == Tried(tries) && after == w
      invariant Turned(cfg, w, candidates, first, tries) && GoesOn(cfg, w, candidates, first, tries, next)
      decreases |Left(candidates, first, tried)|
    {
      var frame := Extended(w, next);
      HopForwards(cfg, here, w, next);
      if !cfg.reselect {
        after := frame;
      }
      var turn := TakeTurn(cfg, acked, next);
      OneMoreTry(cfg, w, candidates, first, tries, turn);
      tries := tries + [turn];
      if turn.reply == Some(Ack) {
        return Taken(frame), frame, tries;
      }
      if turn.reply == Some(StepReply) {
        return Answered(frame), frame, tries;
      }
      if cfg.reselect && DeadEdge(turn) {
        OneLess(candidates, first, tried, next);
        tried := tried + {next};
        var again := PickNext(w, candidates, tried, turn.dead, turn.connected);
        if again.Some? {
          next := again.value;
          continue;
        }
      }
      return Ended(SendFailed), after, tries;
    }
  }

  /** One turn: a hop that reads as not connected is not sent to; a transport that cannot say reads as absent. */
  method TakeTurn(cfg: Config, acked: bool, next: Id) returns (turn: Try)
    ensures turn.next == next && (turn.reply == Some(Ack) ==> acked)
    ensures turn.reply.None? ==> cfg.reselect && turn.connected.Some? && next !in turn.connected.value
    ensures turn.reply.Some? ==> turn.reply.value in {Ack, StepReply, EdgeLoss, OtherError}
  {
    var connected: Option<set<Id>> := *;
    var dead: set<Id> := *;
    if cfg.reselect && connected.Some? && next !in connected.value {
      return Try(next, None, connected, dead);
    }
    var reply := SendStep(acked);
    connected, dead := *, *;
    return Try(next, Some(reply), connected, dead);
  }

  lemma HopForwards(cfg: Config, here: Here, w: Walk, next: Id)
    requires Sendable(cfg, here, w) && IsHop(here, w, next)
    requires Direct(here, w) && !cfg.reselect ==> next == w.target
    ensures Forwards(cfg, here, w, Extended(w, next))
  {
    hide IsHop;
  }

  /** What the loop has not tried yet. */
  ghost function Left(candidates: seq<Id>, first: Id, tried: set<Id>): set<Id> {
    Members(candidates) + {first} - tried
  }

  lemma OneLess(candidates: seq<Id>, first: Id, tried: set<Id>, next: Id)
    requires (next == first || next in candidates) && next !in tried
    ensures |Left(candidates, first, tried + {next})| < |Left(candidates, first, tried)|
  {
    assert Left(candidates, first, tried) == Left(candidates, first, tried + {next}) + {next};
  }

  lemma NoTurns(cfg: Config, w: Walk, candidates: seq<Id>, first: Id)
    ensures Tried([]) == {} && Turned(cfg, w, candidates, first, [])
  {
  }

  lemma OneMoreTry(cfg: Config, w: Walk, candidates: seq<Id>, first: Id, tries: seq<Try>, t: Try)
    requires Turned(cfg, w, candidates, first, tries) && GoesOn(cfg, w, candidates, first, tries, t.next)
    ensures Tried(tries + [t]) == Tried(tries) + {t.next}
    ensures Turned(cfg, w, candidates, first, tries + [t])
  {
    hide PickIs;
    var more := tries + [t];
    assert more[..|tries|] == tries;
    forall i | 0 < i < |more| ensures RetriedAt(cfg, w, candidates, more, i) {
      assert i < |tries| ==> RetriedAt(cfg, w, candidates, tries, i);
      assert i < |tries| ==> more[..i] == tries[..i];
    }
  }

  /** The send itself: the acknowledged walk falls back to the recursive step for an older next hop. */
  method SendStep(acked: bool) returns (reply: Reply)
    ensures reply == Ack ==> acked
    ensures reply in {Ack, StepReply, EdgeLoss, OtherError}
  {
    if acked {
      reply := *;
      if reply == Ack {
        return;
      }
      if reply == NotAcked || reply == StepReply {
        return OtherError;
      }
      if reply != NoHandler {
        return;
      }
    }
    reply := *;
    if reply != StepReply && reply != EdgeLoss {
      return OtherError;
    }
  }

  // ---- branches ----

  /** A branch of a walk: the frames handed from holder to holder, each by one step. */
  ghost predicate Branch(cfg: Config, self: Id, target: Id, frames: seq<Walk>, holders: seq<Here>) {
    && |frames| == |holders| > 0
    && frames[0] == Opening(self, target) && holders[0].id == self
    && forall i :: 0 <= i < |frames| - 1 ==> HandedOn(cfg, frames, holders, i)
  }

  ghost predicate HandedOn(cfg: Config, frames: seq<Walk>, holders: seq<Here>, i: nat)
    requires i + 1 < |frames| == |holders|
  {
    && Forwards(cfg, holders[i], frames[i], frames[i + 1])
    && holders[i + 1].id == frames[i + 1].path[|frames[i + 1].path| - 1]
  }

  lemma {:induction false} BranchOnItsWay(
    cfg: Config, self: Id, target: Id, frames: seq<Walk>, holders: seq<Here>, i: nat)
    requires Branch(cfg, self, target, frames, holders) && i < |frames|
    ensures OnItsWay(cfg, frames[i], holders[i].id)
    ensures frames[i].source == self && frames[i].target == target && |frames[i].path| == i + 1
    ensures forall j :: 0 <= j <= i ==> frames[i].path[j] == holders[j].id
  {
    if i == 0 {
      OpeningOnItsWay(cfg, self, target);
    } else {
      BranchOnItsWay(cfg, self, target, frames, holders, i - 1);
      assert HandedOn(cfg, frames, holders, i - 1);
      HopIsFresh(holders[i - 1], frames[i - 1], holders[i].id);
      StepKeepsWalk(cfg, frames[i - 1], holders[i - 1].id, holders[i].id);
    }
  }

  /** No branch of a lookup visits a node twice or takes more than the allowed hops. */
  lemma BranchNeverRevisits(cfg: Config, self: Id, target: Id, frames: seq<Walk>, holders: seq<Here>)
    requires Branch(cfg, self, target, frames, holders)
    ensures |holders| <= cfg.maxHops + 1
    ensures forall i, j :: 0 <= i < j < |holders| ==> holders[i].id != holders[j].id
    ensures forall i :: 0 <= i < |holders| - 1 ==> holders[i].id != target
  {
    BranchOnItsWay(cfg, self, target, frames, holders, |frames| - 1);
    forall i | 0 <= i < |holders| - 1 ensures holders[i].id != target {
      BranchOnItsWay(cfg, self, target, frames, holders, i);
      assert HandedOn(cfg, frames, holders, i);
    }
  }

  /** Wherever a branch ends, and whatever the last step did, the path it leaves names no node twice. */
  lemma BranchPathDistinct(
    cfg: Config, self: Id, target: Id, frames: seq<Walk>, holders: seq<Here>, out: Outcome, after: Walk)
    requires Branch(cfg, self, target, frames, holders)
    requires StepResult(cfg, holders[|holders| - 1], frames[|frames| - 1], out, after)
    ensures Distinct(after.path) && frames[|frames| - 1].path <= after.path
  {
    hide Distinct, Members;
    var n := |holders| - 1;
    var w := frames[n];
    BranchOnItsWay(cfg, self, target, frames, holders, n);
    OnItsWayIsDistinct(cfg, w, holders[n].id);
    if after != w {
      assert Forwards(cfg, holders[n], w, after);
      var next := after.path[|after.path| - 1];
      HopIsFresh(holders[n], w, next);
      StepKeepsWalk(cfg, w, holders[n].id, next);
      OnItsWayIsDistinct(cfg, after, next);
    }
  }

  /**
   * The result of a branch returns to the originator from every one of its holders, in as many hand-backs as hops led
   * there and through the same nodes. Its path is the one the last step left, or any longer one without repeats, as a
   * next hop's own reply carries it.
   */
  lemma EveryResultReturns(
    cfg: Config, self: Id, target: Id, frames: seq<Walk>, holders: seq<Here>, out: Outcome, after: Walk, path: seq<Id>,
    i: nat)
    requires Branch(cfg, self, target, frames, holders) && i < |holders|
    requires StepResult(cfg, holders[|holders| - 1], frames[|frames| - 1], out, after)
    requires path == after.path || (after.path <= path && Distinct(path))
    ensures HandedBack(path, holders[i].id, i) == Some(self)
    ensures forall j :: 0 <= j <= i ==> HandedBack(path, holders[i].id, j) == Some(holders[i - j].id)
  {
    hide Prev, HandedBack, Distinct, Members, StepResult;
    BranchPathDistinct(cfg, self, target, frames, holders, out, after);
    BranchOnItsWay(cfg, self, target, frames, holders, |holders| - 1);
    var w := frames[|frames| - 1];
    forall j | 0 <= j <= i ensures HandedBack(path, holders[i].id, j) == Some(holders[i - j].id) {
      assert path[i] == w.path[i] && path[i - j] == w.path[i - j];
      ResultReturns(path, i, j);
    }
    assert holders[0].id == self;
  }

  lemma OnItsWayIsDistinct(cfg: Config, w: Walk, holder: Id)
    requires OnItsWay(cfg, w, holder)
    ensures Distinct(w.path)
  {
  }
}
