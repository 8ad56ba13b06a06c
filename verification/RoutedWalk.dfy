/** Routed messages: how each hop is chosen, what the path memory forbids, and how long a walk can get. */
module RoutedWalk {

  import opened KeySpace
  import opened Nearest
  import opened Options

  /** `pathMemory` is what the node appends to: PATH_MEMORY, or the longer memory of signal frames. */
  datatype Config = Config(maxHops: nat, pathMemory: nat, reselect: bool)

  datatype Frame = Frame(target: Id, hops: nat, path: seq<Id>, via: Option<Id>, rpath: seq<Id>)

  /** A probed neighbour's answer: the node it would hand a message on to. */
  datatype Answer = Answer(peer: Id, named: Id)

  /** One node's neighbours as a routed message finds them, and the probe answers it hears in time, in their order. */
  datatype View = View(
    id: Id,
    managed: seq<Id>, incomingPool: seq<Id>, reverse: seq<Id>,
    dead: set<Id>, connected: Option<set<Id>>,
    bridge: Option<Id>, capable: bool, answers: seq<Answer>)

  datatype Selector = ReturnRoute | Via | Greedy | Lookahead | Fallback | Reselected

  datatype Outcome =
    | Consumed
    | Terminal
    | NoCapableTerminal
    | HopLimit
    | NoLiveHop
    | SendFailed
    | Forwarded(next: Id, frame: Frame, how: Selector)

  const SIGNAL_RPATH_MAX: nat := 16

  // ---- neighbours ----

  predicate Reachable(view: View, e: Id) {
    e !in view.dead && (view.connected.Some? ==> e in view.connected.value)
  }

  /** `_usablePeers`: neighbours not excluded, not dead and connected. */
  function UsablePeers(view: View, exclude: set<Id>): (out: seq<Id>)
    ensures forall e :: e in out <==>
              (e in view.managed || e in view.incomingPool) && e != view.id && e !in exclude && Reachable(view, e)
  {
    Usable(view, exclude, view.managed) + Usable(view, exclude, view.incomingPool)
  }

  function Usable(view: View, exclude: set<Id>, from: seq<Id>): (out: seq<Id>)
    ensures forall e :: e in out <==> e in from && e != view.id && e !in exclude && Reachable(view, e)
  {
    if from == [] then []
    else
      var e := from[|from| - 1];
      Usable(view, exclude, from[..|from| - 1]) +
      if e != view.id && e !in exclude && Reachable(view, e) then [e] else []
  }

  /** The nearest of `peers` outside `skip` that is strictly nearer the target than `bound`. */
  method NearestBelow(target: Id, peers: seq<Id>, skip: set<Id>, bound: nat) returns (best: Option<Id>)
    ensures best.Some? ==> best.value in peers && best.value !in skip && Xor(best.value, target) < bound
    ensures best.Some? ==> forall e :: e in peers && e !in skip ==> Xor(best.value, target) <= Xor(e, target)
    ensures best.None? ==> forall e :: e in peers && e !in skip ==> Xor(e, target) >= bound
  {
    best := None;
    var bestDist := bound;
    for i := 0 to |peers|
      invariant bestDist <= bound
      invariant if best.None? then bestDist == bound
                else best.value in peers && best.value !in skip && Xor(best.value, target) == bestDist < bound
      invariant forall e :: e in peers[..i] && e !in skip ==> bestDist <= Xor(e, target)
    {
      var e := peers[i];
      if e !in skip && Xor(e, target) < bestDist {
        best, bestDist := Some(e), Xor(e, target);
      }
    }
    assert peers[..|peers|] == peers;
  }

  method NearestOf(target: Id, peers: seq<Id>) returns (best: Option<Id>)
    ensures best.None? <==> peers == []
    ensures best.Some? ==> best.value in peers && forall e :: e in peers ==> Xor(best.value, target) <= Xor(e, target)
  {
    best := None;
    for i := 0 to |peers|
      invariant best.None? <==> i == 0
      invariant best.Some? ==> best.value in peers
      invariant best.Some? ==> forall e :: e in peers[..i] ==> Xor(best.value, target) <= Xor(e, target)
    {
      if best.None? || Xor(peers[i], target) < Xor(best.value, target) {
        best := Some(peers[i]);
      }
    }
    assert peers[..|peers|] == peers;
  }

  /** The neighbours that answer the two-hop search without a probe: of the incoming pool and the reverse index. */
  function Adjacent(view: View, exclude: set<Id>): (out: seq<Id>)
    ensures forall e :: e in out <==>
              (e in view.incomingPool || e in view.reverse) && e != view.id && e !in exclude && Reachable(view, e)
  {
    Usable(view, exclude, view.incomingPool) + Usable(view, exclude, view.reverse)
  }

  /** The nearest of `peers`, and nearer the target than this node. */
  ghost predicate IsNearest(view: View, target: Id, peers: seq<Id>, e: Id) {
    && e in peers
    && Xor(e, target) < Xor(view.id, target)
    && forall f :: f in peers ==> Xor(e, target) <= Xor(f, target)
  }

  ghost predicate NoneNearer(view: View, target: Id, peers: seq<Id>) {
    forall e :: e in peers ==> Xor(e, target) >= Xor(view.id, target)
  }

  /** A usable peer named a node nearer the target than this one. */
  predicate Names(view: View, target: Id, exclude: set<Id>, a: Answer) {
    a.peer in UsablePeers(view, exclude) && Xor(a.named, target) < Xor(view.id, target)
  }

  /** The first of the answers that names a nearer node. */
  ghost predicate AnsweredFirst(view: View, target: Id, exclude: set<Id>, a: Answer) {
    && a in view.answers && Names(view, target, exclude, a)
    && exists i :: 0 <= i < |view.answers| && view.answers[i] == a &&
                   forall b :: b in view.answers[..i] ==> !Names(view, target, exclude, b)
  }

  /** The nearest adjacent neighbour that is nearer, or else the usable one that first named a nearer node. */
  ghost predicate IsTwoHop(view: View, target: Id, exclude: set<Id>, first: Id, via: Option<Id>) {
    if via.None? then IsNearest(view, target, Adjacent(view, exclude), first)
    else
      && NoneNearer(view, target, Adjacent(view, exclude))
      && AnsweredFirst(view, target, exclude, Answer(first, via.value))
  }

  /** No adjacent neighbour is nearer, and no usable one named a nearer node. */
  ghost predicate NoTwoHop(view: View, target: Id, exclude: set<Id>) {
    && NoneNearer(view, target, Adjacent(view, exclude))
    && forall a :: a in view.answers ==> !Names(view, target, exclude, a)
  }

  /** `_findCloserInTwoHops`: a neighbour off the path that is nearer, or that named a node which is. */
  method TwoHops(view: View, target: Id, exclude: set<Id>) returns (first: Option<Id>, via: Option<Id>)
    ensures first.Some? ==> IsTwoHop(view, target, exclude, first.value, via)
    ensures first.None? ==> via.None? && NoTwoHop(view, target, exclude)
    ensures view.id == target ==> first.None?
  {
    hide Xor, UsablePeers;
    var mine := Xor(view.id, target);
    XorZero(view.id, target);
    if mine == 0 {
      return None, None;
    }
    first := NearestBelow(target, Adjacent(view, exclude), {}, mine);
    if first.Some? {
      return first, None;
    }
    for i := 0 to |view.answers|
      invariant forall a :: a in view.answers[..i] ==> !Names(view, target, exclude, a)
    {
      var a := view.answers[i];
      if Names(view, target, exclude, a) {
        assert view.answers[i] == a;
        return Some(a.peer), Some(a.named);
      }
    }
    assert view.answers[..|view.answers|] == view.answers;
    return None, None;
  }

  predicate BridgeEligible(view: View, exclude: set<Id>) {
    view.bridge.Some? && view.bridge.value != view.id && view.bridge.value !in exclude && Reachable(view, view.bridge.value)
  }

  /** The bridge when it is eligible, else the nearest usable peer at any distance. */
  ghost predicate IsFallback(view: View, target: Id, exclude: set<Id>, hop: Id) {
    if BridgeEligible(view, exclude) then hop == view.bridge.value
    else
      && hop in UsablePeers(view, exclude)
      && forall e :: e in UsablePeers(view, exclude) ==> Xor(hop, target) <= Xor(e, target)
  }

  /** `_capableFallbackHop`. */
  method FallbackHop(view: View, target: Id, exclude: set<Id>) returns (hop: Option<Id>)
    ensures hop.Some? ==> IsFallback(view, target, exclude, hop.value)
    ensures hop.None? <==> !BridgeEligible(view, exclude) && UsablePeers(view, exclude) == []
  {
    if BridgeEligible(view, exclude) {
      return view.bridge;
    }
    hop := NearestOf(target, UsablePeers(view, exclude));
  }

  // ---- the path a frame carries ----

  /** `s.slice(-n)`: the last `n` elements, and the whole of `s` for `n == 0`. */
  function SliceLast(s: seq<Id>, n: nat): seq<Id> {
    if n == 0 || n >= |s| then s else s[|s| - n..]
  }

  function Remembered(path: seq<Id>, me: Id, pathMemory: nat): seq<Id>
    requires pathMemory >= 1
  {
    SliceLast(path, pathMemory - 1) + [me]
  }

  /** The ids a hop may not forward to: the path it was handed, or the bare sender of a frame without one. */
  function Excluded(frame: Frame, from: Option<Id>, me: Id): set<Id> {
    (if frame.path != [] then (set e | e in frame.path)
     else if from.Some? then {from.value} else {}) + {me}
  }

  // ---- one hop ----

  /** A neighbour a frame may name as its next hop. */
  predicate Linked(view: View, exclude: set<Id>, e: Id) {
    e !in exclude && Reachable(view, e) && (view.connected.None? ==> e in view.managed)
  }

  predicate RouteOpen(view: View, frame: Frame, exclude: set<Id>) {
    frame.rpath != [] && Linked(view, exclude, frame.rpath[0])
  }

  predicate ViaOpen(view: View, frame: Frame, exclude: set<Id>) {
    frame.via.Some? && Linked(view, exclude, frame.via.value)
  }

  /** `rpath.slice(1, SIGNAL_RPATH_MAX)`. */
  function RestOfRoute(rpath: seq<Id>): seq<Id>
    requires rpath != []
  {
    if |rpath| <= SIGNAL_RPATH_MAX then rpath[1..] else rpath[1..SIGNAL_RPATH_MAX]
  }

  /** No frame names a hop that is open, and no usable peer is nearer. */
  ghost predicate AtMinimum(view: View, frame: Frame, exclude: set<Id>, routeOpen: bool) {
    !routeOpen && !ViaOpen(view, frame, exclude) && NoneNearer(view, frame.target, UsablePeers(view, exclude))
  }

  /**
   * A hop under the selector that chose it, each only where those before it had nothing, with the two-hop commitment
   * and the return route it sends along. `routeOpen` is whether the return route can be taken.
   */
  ghost predicate Chosen(
    view: View, frame: Frame, exclude: set<Id>, routeOpen: bool, next: Id, how: Selector, via: Option<Id>, rpath: seq<Id>)
  {
    && next !in exclude
    && (how != Lookahead ==> via == None)
    && (how != ReturnRoute ==> rpath == [])
    && match how
       case ReturnRoute => routeOpen && frame.rpath != [] && next == frame.rpath[0] && rpath == RestOfRoute(frame.rpath)
       case Via => !routeOpen && ViaOpen(view, frame, exclude) && next == frame.via.value
       case Greedy =>
         && !routeOpen && !ViaOpen(view, frame, exclude)
         && IsNearest(view, frame.target, UsablePeers(view, exclude), next)
       case Lookahead => AtMinimum(view, frame, exclude, routeOpen) && IsTwoHop(view, frame.target, exclude, next, via)
       case Fallback =>
         && AtMinimum(view, frame, exclude, routeOpen) && NoTwoHop(view, frame.target, exclude)
         && !view.capable && IsFallback(view, frame.target, exclude, next)
       case Reselected =>
         next in UsablePeers(view, exclude) && Xor(next, frame.target) < Xor(view.id, frame.target)
  }

  /** Whatever chose it, a hop is a live, connected peer off the path. */
  lemma ChosenIsReachable(
    view: View, frame: Frame, exclude: set<Id>, next: Id, how: Selector, via: Option<Id>, rpath: seq<Id>)
    requires Chosen(view, frame, exclude, RouteOpen(view, frame, exclude), next, how, via, rpath)
    ensures next !in exclude && next !in view.dead
    ensures view.connected.Some? ==> next in view.connected.value
    ensures view.connected.None? && (how == ReturnRoute || how == Via) ==> next in view.managed
  {
    hide Xor;
  }

  /** The two-hop commitment: a frame without a return route goes to the peer it names whenever that peer is reachable and off the path. */
  lemma NamedPeerFirst(
    view: View, frame: Frame, exclude: set<Id>, next: Id, how: Selector, via: Option<Id>, rpath: seq<Id>)
    requires Chosen(view, frame, exclude, RouteOpen(view, frame, exclude), next, how, via, rpath) && how != Reselected
    requires frame.rpath == [] && frame.via.Some? && frame.via.value !in exclude && frame.via.value !in view.dead
    requires if view.connected.Some? then frame.via.value in view.connected.value else frame.via.value in view.managed
    ensures next == frame.via.value && via == None
  {
    hide Xor;
  }

  /** The first choices in order: return route, the named two-hop peer, greedy, lookahead. */
  method ChooseHop(view: View, frame: Frame, exclude: set<Id>)
    returns (next: Option<Id>, how: Selector, via: Option<Id>, rpath: seq<Id>)
    requires view.id in exclude
    ensures next.Some? ==> Chosen(view, frame, exclude, RouteOpen(view, frame, exclude), next.value, how, via, rpath)
    ensures next.None? ==> AtMinimum(view, frame, exclude, RouteOpen(view, frame, exclude)) && via == None && rpath == []
    ensures next.None? ==> NoTwoHop(view, frame.target, exclude)
    ensures how != Fallback && how != Reselected
  {
    hide Xor;
    if RouteOpen(view, frame, exclude) {
      return Some(frame.rpath[0]), ReturnRoute, None, RestOfRoute(frame.rpath);
    }
    if ViaOpen(view, frame, exclude) {
      return Some(frame.via.value), Via, None, [];
    }
    via, rpath := None, [];
    next := NearestBelow(frame.target, UsablePeers(view, exclude), {}, Xor(view.id, frame.target));
    how := Greedy;
    if next.None? {
      next, via := TwoHops(view, frame.target, exclude);
      how := Lookahead;
    }
  }

  ghost predicate HandleResult(cfg: Config, view: View, frame: Frame, exclude: set<Id>, out: Outcome) {
    var routeOpen := RouteOpen(view, frame, exclude);
    match out
    case Forwarded(next, sent, how) =>
      && Chosen(view, frame, exclude, routeOpen, next, how, sent.via, sent.rpath)
      && (how == Reselected ==> cfg.reselect)
      && frame.hops + 1 < cfg.maxHops
      && sent.target == frame.target && sent.hops == frame.hops + 1
      && cfg.pathMemory >= 1 && sent.path == Remembered(frame.path, view.id, cfg.pathMemory)
    case Terminal => view.capable && AtMinimum(view, frame, exclude, routeOpen) && NoTwoHop(view, frame.target, exclude)
    case NoCapableTerminal =>
      && !view.capable && AtMinimum(view, frame, exclude, routeOpen) && NoTwoHop(view, frame.target, exclude)
      && UsablePeers(view, exclude) == [] && !BridgeEligible(view, exclude)
    case HopLimit => frame.hops + 1 >= cfg.maxHops && HopChosen(view, frame, exclude, routeOpen)
    case NoLiveHop => cfg.reselect && HopChosen(view, frame, exclude, routeOpen) && frame.hops + 1 < cfg.maxHops
    case SendFailed => HopChosen(view, frame, exclude, routeOpen) && frame.hops + 1 < cfg.maxHops
    case Consumed => true
  }

  ghost predicate HopChosen(view: View, frame: Frame, exclude: set<Id>, routeOpen: bool) {
    exists next, how, via, rpath :: how != Reselected && Chosen(view, frame, exclude, routeOpen, next, how, via, rpath)
  }

  /** The `route_msg` handler. */
  method Handle(cfg: Config, view: View, frame: Frame, from: Option<Id>, consumes: bool)
    returns (out: Outcome, ghost tries: seq<Try>)
    requires cfg.pathMemory >= 1
    ensures HandleResult(cfg, view, frame, Excluded(frame, from, view.id), out)
    ensures out == Consumed <==> consumes
    ensures out.Forwarded? || out == SendFailed || out == NoLiveHop <==> tries != []
    ensures tries != [] ==> var exclude := Excluded(frame, from, view.id);
              && Turned(cfg.reselect, view, frame, exclude, tries[0].next, tries)
              && LoopEnds(cfg.reselect, view, frame, exclude, tries, out)
  {
    tries := [];
    var exclude := Excluded(frame, from, view.id);
    var next, how, via, rpath := ChooseHop(view, frame, exclude);
    if consumes {
      return Consumed, [];
    }
    if next.None? {
      if view.capable {
        return Terminal, [];
      }
      next := FallbackHop(view, frame.target, exclude);
      how := Fallback;
      if next.None? {
        return NoCapableTerminal, [];
      }
    }
    assert Chosen(view, frame, exclude, RouteOpen(view, frame, exclude), next.value, how, via, rpath);
    if frame.hops + 1 >= cfg.maxHops {
      return HopLimit, [];
    }
    out, tries := Send(cfg, view, frame, exclude, next.value, how, via, rpath, RouteOpen(view, frame, exclude));
  }

  // ---- what a hop and a stop mean ----

  /** A neighbour the handler may hand the frame to: off the path, live and connected. */
  predicate Open(view: View, frame: Frame, from: Option<Id>, e: Id) {
    && e != view.id && e !in frame.path && (frame.path == [] ==> from != Some(e))
    && e !in view.dead && (view.connected.Some? ==> e in view.connected.value)
  }

  lemma OpenIsUsable(view: View, frame: Frame, from: Option<Id>, e: Id)
    ensures var exclude := Excluded(frame, from, view.id);
            && (Open(view, frame, from, e) <==> e !in exclude && Reachable(view, e))
            && (e in UsablePeers(view, exclude) <==> Open(view, frame, from, e) && (e in view.managed || e in view.incomingPool))
            && (e in Adjacent(view, exclude) <==> Open(view, frame, from, e) && (e in view.incomingPool || e in view.reverse))
  {
  }

  /** A forwarded frame never goes back onto its path, nor straight back to the sender of one without a path. */
  lemma ForwardsToOpen(cfg: Config, view: View, frame: Frame, from: Option<Id>, out: Outcome)
    requires HandleResult(cfg, view, frame, Excluded(frame, from, view.id), out) && out.Forwarded?
    ensures Open(view, frame, from, out.next)
  {
    hide Xor, Remembered;
    OpenIsUsable(view, frame, from, out.next);
  }

  /** A return route is taken while its first node is open, and is named by no other choice. */
  lemma ReturnRouteFirst(cfg: Config, view: View, frame: Frame, from: Option<Id>, out: Outcome)
    requires HandleResult(cfg, view, frame, Excluded(frame, from, view.id), out)
    requires out.Forwarded? && out.how != Reselected && frame.rpath != []
    requires view.connected.None? ==> frame.rpath[0] in view.managed
    ensures out.how == ReturnRoute <==> Open(view, frame, from, frame.rpath[0])
    ensures out.how == ReturnRoute ==> out.next == frame.rpath[0]
  {
    hide Xor, Remembered;
    OpenIsUsable(view, frame, from, frame.rpath[0]);
  }

  /** A greedy hop is nearer than this node, and no open neighbour of either table is nearer than it. */
  lemma GreedyIsNearest(cfg: Config, view: View, frame: Frame, from: Option<Id>, out: Outcome, e: Id)
    requires HandleResult(cfg, view, frame, Excluded(frame, from, view.id), out) && out.Forwarded? && out.how == Greedy
    requires Open(view, frame, from, e) && (e in view.managed || e in view.incomingPool)
    ensures Xor(out.next, frame.target) <= Xor(e, frame.target)
    ensures Xor(out.next, frame.target) < Xor(view.id, frame.target)
  {
    hide Xor, Remembered, UsablePeers;
    OpenIsUsable(view, frame, from, e);
  }

  /** Whoever stops as a terminal knows no open neighbour nearer the target, and heard of no nearer node from one. */
  lemma TerminalIsMinimum(cfg: Config, view: View, frame: Frame, from: Option<Id>, out: Outcome, e: Id)
    requires HandleResult(cfg, view, frame, Excluded(frame, from, view.id), out)
    requires out == Terminal || out == NoCapableTerminal || (out.Forwarded? && out.how == Fallback)
    requires Open(view, frame, from, e)
    ensures e in view.managed || e in view.incomingPool || e in view.reverse ==>
              Xor(view.id, frame.target) <= Xor(e, frame.target)
    ensures e in view.managed || e in view.incomingPool ==>
              forall n :: Answer(e, n) in view.answers ==> Xor(view.id, frame.target) <= Xor(n, frame.target)
    ensures out == Terminal <==> view.capable
    ensures out == NoCapableTerminal ==> e !in view.managed && e !in view.incomingPool && view.bridge != Some(e)
  {
    hide Xor, Remembered, UsablePeers, Adjacent;
    OpenIsUsable(view, frame, from, e);
  }

  /** A neighbour the lookahead probes. */
  predicate Asked(view: View, frame: Frame, from: Option<Id>, e: Id) {
    Open(view, frame, from, e) && (e in view.managed || e in view.incomingPool)
  }

  /** A lookahead makes progress: by its hop, or by the node that hop named, in the first answer that named a nearer one. */
  lemma LookaheadIsNearer(cfg: Config, view: View, frame: Frame, from: Option<Id>, out: Outcome)
    requires HandleResult(cfg, view, frame, Excluded(frame, from, view.id), out) && out.Forwarded? && out.how == Lookahead
    ensures var mine := Xor(view.id, frame.target);
            match out.frame.via
            case None => Xor(out.next, frame.target) < mine
            case Some(named) =>
              && Xor(named, frame.target) < mine
              && Asked(view, frame, from, out.next)
              && exists i :: 0 <= i < |view.answers| && view.answers[i] == Answer(out.next, named) &&
                   forall a :: a in view.answers[..i] && Asked(view, frame, from, a.peer) ==> mine <= Xor(a.named, frame.target)
  {
    hide Xor, Remembered, UsablePeers, Adjacent;
    OpenIsUsable(view, frame, from, out.next);
    var exclude := Excluded(frame, from, view.id);
    if out.frame.via.Some? {
      var a := Answer(out.next, out.frame.via.value);
      var i :| 0 <= i < |view.answers| && view.answers[i] == a &&
        forall b :: b in view.answers[..i] ==> !Names(view, frame.target, exclude, b);
      forall b | b in view.answers[..i] && Asked(view, frame, from, b.peer)
        ensures Xor(view.id, frame.target) <= Xor(b.named, frame.target)
      {
        OpenIsUsable(view, frame, from, b.peer);
      }
    }
  }

  /** A node that cannot serve hands the frame to the bridge while that is open, and else to the nearest open neighbour. */
  lemma FallbackIsBridgeOrNearest(cfg: Config, view: View, frame: Frame, from: Option<Id>, out: Outcome, e: Id)
    requires HandleResult(cfg, view, frame, Excluded(frame, from, view.id), out) && out.Forwarded? && out.how == Fallback
    ensures view.bridge.Some? && Open(view, frame, from, view.bridge.value) ==> out.next == view.bridge.value
    ensures !(view.bridge.Some? && Open(view, frame, from, view.bridge.value)) ==>
              && (out.next in view.managed || out.next in view.incomingPool)
              && (Open(view, frame, from, e) && (e in view.managed || e in view.incomingPool) ==>
                    Xor(out.next, frame.target) <= Xor(e, frame.target))
  {
    hide Xor, Remembered, UsablePeers, Adjacent;
    OpenIsUsable(view, frame, from, e);
    OpenIsUsable(view, frame, from, out.next);
    if view.bridge.Some? {
      OpenIsUsable(view, frame, from, view.bridge.value);
    }
  }

  // ---- the send loop ----

  /** What came of a hop: no channel to send on, a send that lost its edge, one that failed otherwise, or a reply. */
  datatype Edge = Closed | Lost | Broken | Delivered

  /** One turn of the send loop, and the peers no longer usable when a re-selection then looked. */
  datatype Try = Try(next: Id, edge: Edge, gone: set<Id>)

  predicate DeadEdge(t: Try) {
    t.edge == Closed || t.edge == Lost
  }

  ghost function Tried(turns: seq<Try>): set<Id> {
    if turns == [] then {} else Tried(turns[..|turns| - 1]) + {turns[|turns| - 1].next}
  }

  /** What re-selection finds: the nearest usable peer not tried, if one is nearer than this node. */
  ghost predicate Repicked(view: View, frame: Frame, exclude: set<Id>, turns: seq<Try>, next: Option<Id>)
    requires turns != []
  {
    var skip := Tried(turns) + turns[|turns| - 1].gone;
    var left := set e | e in UsablePeers(view, exclude) && e !in skip && Xor(e, frame.target) < Xor(view.id, frame.target);
    match next
    case None => left == {}
    case Some(n) => n in left && forall e :: e in left ==> Xor(n, frame.target) <= Xor(e, frame.target)
  }

  ghost predicate RetriedAt(reselect: bool, view: View, frame: Frame, exclude: set<Id>, tries: seq<Try>, i: nat)
    requires 0 < i < |tries|
  {
    reselect && DeadEdge(tries[i - 1]) && Repicked(view, frame, exclude, tries[..i], Some(tries[i].next))
  }

  /** The turns of a send loop: it began with `first`, and each later hop was re-selected after a dead edge. */
  ghost predicate Turned(reselect: bool, view: View, frame: Frame, exclude: set<Id>, first: Id, tries: seq<Try>) {
    && (tries != [] ==> tries[0].next == first)
    && (|tries| > 1 ==> reselect)
    && forall i :: 0 < i < |tries| ==> RetriedAt(reselect, view, frame, exclude, tries, i)
  }

  /** The loop goes on with this hop. */
  ghost predicate GoesOn(
    reselect: bool, view: View, frame: Frame, exclude: set<Id>, first: Id, tries: seq<Try>, next: Id)
  {
    if tries == [] then next == first
    else reselect && DeadEdge(tries[|tries| - 1]) && Repicked(view, frame, exclude, tries, Some(next))
  }

  /** What the last turn came to: a dead edge ends the loop only without re-selection, or with nothing left to pick. */
  ghost predicate LoopEnds(reselect: bool, view: View, frame: Frame, exclude: set<Id>, tries: seq<Try>, out: Outcome) {
    && tries != []
    && var t := tries[|tries| - 1];
       && (out.Forwarded? <==> t.edge == Delivered)
       && (out.Forwarded? ==> out.next == t.next && (out.how == Reselected <==> |tries| > 1))
       && (out == NoLiveHop <==> t.edge == Closed)
       && (out == SendFailed <==> t.edge == Lost || t.edge == Broken)
       && (t.edge == Closed ==> reselect)
       && (reselect && DeadEdge(t) ==> Repicked(view, frame, exclude, tries, None))
  }

  /** With re-selection on, a hop without a channel or whose send lost its edge is followed by another while a nearer usable peer is left. */
  lemma GivesUpOnlyWithNobodyLeft(
    reselect: bool, view: View, frame: Frame, exclude: set<Id>, tries: seq<Try>, out: Outcome, e: Id)
    requires tries != [] && LoopEnds(reselect, view, frame, exclude, tries, out) && reselect && !out.Forwarded?
    ensures var t := tries[|tries| - 1];
            || t.edge == Broken
            || e !in UsablePeers(view, exclude) || e in t.gone || (exists u :: u in tries && u.next == e)
            || Xor(view.id, frame.target) <= Xor(e, frame.target)
  {
    hide Xor, UsablePeers;
    TriedAre(tries, e);
  }

  lemma {:induction false} TriedAre(turns: seq<Try>, e: Id)
    ensures e in Tried(turns) <==> exists u :: u in turns && u.next == e
  {
    if turns != [] {
      var init, last := turns[..|turns| - 1], turns[|turns| - 1];
      TriedAre(init, e);
      assert turns == init + [last];
    }
  }

  /** Each later hop follows a closed channel or a lost edge, is usable and not tried before, and is nearer than this node and than every other such peer. */
  lemma RetriesTakeNearest(
    reselect: bool, view: View, frame: Frame, exclude: set<Id>, first: Id, tries: seq<Try>, i: nat, e: Id)
    requires Turned(reselect, view, frame, exclude, first, tries) && 0 < i < |tries|
    ensures reselect && (tries[i - 1].edge == Closed || tries[i - 1].edge == Lost)
    ensures tries[i].next in UsablePeers(view, exclude) && Xor(tries[i].next, frame.target) < Xor(view.id, frame.target)
    ensures !exists u :: u in tries[..i] && u.next == tries[i].next
    ensures e in UsablePeers(view, exclude) && e !in tries[i - 1].gone && (!exists u :: u in tries[..i] && u.next == e) ==>
              Xor(tries[i].next, frame.target) <= Xor(e, frame.target)
  {
    hide Xor, UsablePeers;
    assert RetriedAt(reselect, view, frame, exclude, tries, i);
    TriedAre(tries[..i], e);
    TriedAre(tries[..i], tries[i].next);
    assert tries[..i][i - 1] == tries[i - 1];
  }

  lemma NoTurns(reselect: bool, view: View, frame: Frame, exclude: set<Id>, first: Id)
    ensures Tried([]) == {} && Turned(reselect, view, frame, exclude, first, [])
  {
  }

  lemma OneMoreTry(reselect: bool, view: View, frame: Frame, exclude: set<Id>, first: Id, tries: seq<Try>, t: Try)
    requires Turned(reselect, view, frame, exclude, first, tries) && GoesOn(reselect, view, frame, exclude, first, tries, t.next)
    ensures Tried(tries + [t]) == Tried(tries) + {t.next}
    ensures Turned(reselect, view, frame, exclude, first, tries + [t])
  {
    hide Repicked;
    var more := tries + [t];
    assert more[..|tries|] == tries;
    forall i | 0 < i < |more| ensures RetriedAt(reselect, view, frame, exclude, more, i) {
      assert i < |tries| ==> RetriedAt(reselect, view, frame, exclude, tries, i);
      assert i < |tries| ==> more[..i] == tries[..i];
    }
  }

  /** `_rsPick`. */
  method Repick(view: View, frame: Frame, exclude: set<Id>, tried: set<Id>, ghost turns: seq<Try>, gone: set<Id>)
    returns (next: Option<Id>)
    requires turns != [] && tried == Tried(turns) && gone == turns[|turns| - 1].gone
    ensures Repicked(view, frame, exclude, turns, next)
    ensures next.Some? ==> next.value in UsablePeers(view, exclude) && next.value !in tried
    ensures next.Some? ==> Xor(next.value, frame.target) < Xor(view.id, frame.target)
  {
    hide Xor, Tried;
    next := NearestBelow(frame.target, UsablePeers(view, exclude), tried + gone, Xor(view.id, frame.target));
  }

  /** One turn: with re-selection on, a hop whose channel is closed is not sent to. */
  method TakeTurn(reselect: bool, next: Id) returns (turn: Try)
    ensures turn.next == next && (turn.edge == Closed ==> reselect)
  {
    var closed: bool, edge: Edge, gone: set<Id> := *, *, *;
    if reselect && closed {
      return Try(next, Closed, gone);
    }
    return Try(next, if edge == Closed then Broken else edge, gone);
  }

  /** What the loop has not tried yet. */
  ghost function Left(view: View, first: Id, tried: set<Id>): set<Id> {
    Members(view.managed + view.incomingPool) + {first} - tried
  }

  lemma OneLess(view: View, exclude: set<Id>, first: Id, tried: set<Id>, next: Id)
    requires (next == first || next in UsablePeers(view, exclude)) && next !in tried
    ensures |Left(view, first, tried + {next})| < |Left(view, first, tried)|
  {
    assert next in Members(view.managed + view.incomingPool) + {first};
    assert Left(view, first, tried) == Left(view, first, tried + {next}) + {next};
  }

  /** The send loop of a forwarder. A dead edge is replaced by the nearest live peer nearer than this node. */
  method Send(
    cfg: Config, view: View, frame: Frame, exclude: set<Id>, first: Id, firstBy: Selector, via: Option<Id>, rpath: seq<Id>,
    ghost routeOpen: bool)
    returns (out: Outcome, ghost tries: seq<Try>)
    requires cfg.pathMemory >= 1 && frame.hops + 1 < cfg.maxHops && firstBy != Reselected
    requires Chosen(view, frame, exclude, routeOpen, first, firstBy, via, rpath)
    ensures Turned(cfg.reselect, view, frame, exclude, first, tries) && LoopEnds(cfg.reselect, view, frame, exclude, tries, out)
    ensures out.Forwarded? ==>
              && Chosen(view, frame, exclude, routeOpen, out.next, out.how, out.frame.via, out.frame.rpath)
              && (out.how == Reselected ==> cfg.reselect)
              && (out.how != Reselected ==>
                    out.next == first && out.how == firstBy && out.frame.via == via && out.frame.rpath == rpath)
              && out.frame.target == frame.target && out.frame.hops == frame.hops + 1
              && out.frame.path == Remembered(frame.path, view.id, cfg.pathMemory)
  {
    hide Remembered, Xor, UsablePeers, AtMinimum, NoTwoHop, IsNearest, IsTwoHop, IsFallback, Turned, Tried, Repicked, Left,
      RouteOpen, ViaOpen, RestOfRoute;
    var next, how, via', rpath' := first, firstBy, via, rpath;
    var tried: set<Id> := {};
    tries := [];
    NoTurns(cfg.reselect, view, frame, exclude, first);
    while true
      invariant Chosen(view, frame, exclude, routeOpen, next, how, via', rpath') && next !in tried
      invariant if tries == [] then next == first && how == firstBy && via' == via && rpath' == rpath
                else how == Reselected && next in UsablePeers(view, exclude)
      invariant tried == Tried(tries)
      invariant Turned(cfg.reselect, view, frame, exclude, first, tries) && GoesOn(cfg.reselect, view, frame, exclude, first, tries, next)
      decreases |Left(view, first, tried)|
    {
      var turn := TakeTurn(cfg.reselect, next);
      OneMoreTry(cfg.reselect, view, frame, exclude, first, tries, turn);
      tries := tries + [turn];
      if turn.edge == Delivered {
        var sent := Frame(frame.target, frame.hops + 1, Remembered(frame.path, view.id, cfg.pathMemory), via', rpath');
        return Forwarded(next, sent, how), tries;
      }
      if cfg.reselect && DeadEdge(turn) {
        OneLess(view, exclude, first, tried, next);
        tried := tried + {next};
        via', rpath' := None, [];
        var again := Repick(view, frame, exclude, tried, tries, turn.gone);
        if again.Some? {
          UsableAreOff(view, exclude, again.value);
          next, how := again.value, Reselected;
          continue;
        }
      }
      return if turn.edge == Closed then NoLiveHop else SendFailed, tries;
    }
  }

  lemma UsableAreOff(view: View, exclude: set<Id>, e: Id)
    requires e in UsablePeers(view, exclude)
    ensures e !in exclude
  {
  }

  /** The originator takes a return route only while a channel to its first hop is open. */
  predicate OriginRouteOpen(view: View, rpath: seq<Id>) {
    rpath != [] && view.connected.Some? && rpath[0] != view.id && rpath[0] in view.connected.value
  }

  ghost predicate OriginResult(cfg: Config, view: View, target: Id, rpath: seq<Id>, out: Outcome) {
    var m, routeOpen := Unsent(target, rpath), OriginRouteOpen(view, rpath);
    match out
    case Forwarded(next, sent, how) =>
      && Chosen(view, m, {view.id}, routeOpen, next, how, sent.via, sent.rpath)
      && (how == Reselected ==> cfg.reselect)
      && sent.target == target && sent.hops == 1 && sent.path == [view.id]
    case Terminal => view.capable && AtMinimum(view, m, {view.id}, routeOpen) && NoTwoHop(view, target, {view.id})
    case NoCapableTerminal =>
      && !view.capable && AtMinimum(view, m, {view.id}, routeOpen) && NoTwoHop(view, target, {view.id})
      && UsablePeers(view, {view.id}) == [] && !BridgeEligible(view, {view.id})
    case HopLimit => false
    case NoLiveHop => cfg.reselect && HopChosen(view, m, {view.id}, routeOpen)
    case SendFailed => HopChosen(view, m, {view.id}, routeOpen)
    case Consumed => true
  }

  /** The message as the originator has it before its first hop. */
  function Unsent(target: Id, rpath: seq<Id>): Frame {
    Frame(target, 0, [], None, rpath)
  }

  /** The originator's choices in order: return route, greedy, lookahead. */
  method ChooseFirst(view: View, target: Id, rpath: seq<Id>)
    returns (next: Option<Id>, how: Selector, via: Option<Id>, rest: seq<Id>)
    ensures var m, routeOpen := Unsent(target, rpath), OriginRouteOpen(view, rpath);
            && (next.Some? ==> Chosen(view, m, {view.id}, routeOpen, next.value, how, via, rest))
            && (next.None? ==> AtMinimum(view, m, {view.id}, routeOpen) && via == None && rest == [])
            && (next.None? ==> NoTwoHop(view, target, {view.id}))
    ensures how != Fallback && how != Reselected
  {
    hide Xor;
    if OriginRouteOpen(view, rpath) {
      return Some(rpath[0]), ReturnRoute, None, RestOfRoute(rpath);
    }
    via, rest := None, [];
    next := NearestBelow(target, UsablePeers(view, {view.id}), {}, Xor(view.id, target));
    how := Greedy;
    if next.None? {
      next, via := TwoHops(view, target, {view.id});
      how := Lookahead;
    }
  }

  /** `routeMessage`: the originator has no hop limit of its own. */
  method Originate(cfg: Config, view: View, target: Id, rpath: seq<Id>, consumes: bool)
    returns (out: Outcome, ghost tries: seq<Try>)
    ensures OriginResult(cfg, view, target, rpath, out)
    ensures out == Consumed <==> consumes
    ensures out.Forwarded? || out == SendFailed || out == NoLiveHop <==> tries != []
    ensures tries != [] ==>
              && Turned(cfg.reselect, view, Unsent(target, rpath), {view.id}, tries[0].next, tries)
              && LoopEnds(cfg.reselect, view, Unsent(target, rpath), {view.id}, tries, out)
  {
    hide Xor, AtMinimum, IsNearest, IsTwoHop, IsFallback;
    var next, how, via, rest := ChooseFirst(view, target, rpath);
    tries := [];
    if consumes {
      return Consumed, [];
    }
    if next.None? {
      if view.capable {
        return Terminal, [];
      }
      next := FallbackHop(view, target, {view.id});
      how := Fallback;
      if next.None? {
        return NoCapableTerminal, [];
      }
    }
    // One send and its re-selections, as in a forwarder, with the originator alone on the path and no limit to look at.
    out, tries := Send(Config(2, 1, cfg.reselect), view, Unsent(target, rpath), {view.id}, next.value, how, via, rest,
                OriginRouteOpen(view, rpath));
  }

  // ---- runs ----

  /** A routed walk: the nodes it visited in order, and the frame each but the first received. */
  ghost predicate Walk(memory: nat, maxHops: nat, nodes: seq<Id>, frames: seq<Frame>) {
    && |nodes| == |frames| + 1
    && memory >= 1
    && (|frames| > 0 ==> frames[0].hops == 1 && frames[0].path == [nodes[0]] && nodes[1] != nodes[0])
    && forall i :: 0 < i < |frames| ==> HandedOn(memory, maxHops, nodes, frames, i)
  }

  /** Frame `i` was sent by node `i`, under the path frame `i - 1` carried and with at least the common memory. */
  ghost predicate HandedOn(memory: nat, maxHops: nat, nodes: seq<Id>, frames: seq<Frame>, i: nat)
    requires 0 < i < |frames| && |nodes| == |frames| + 1
  {
    && frames[i].hops == frames[i - 1].hops + 1 < maxHops
    && nodes[i + 1] !in frames[i - 1].path && nodes[i + 1] != nodes[i]
    && KeptAtLeast(memory, frames[i - 1].path, nodes[i], frames[i].path)
  }

  ghost predicate KeptAtLeast(memory: nat, path: seq<Id>, me: Id, sent: seq<Id>) {
    exists m: nat :: IsRemembered(memory, path, me, sent, m)
  }

  ghost predicate IsRemembered(memory: nat, path: seq<Id>, me: Id, sent: seq<Id>, m: nat) {
    m >= memory && m >= 1 && sent == Remembered(path, me, m)
  }

  lemma ForwardHandsOn(
    memory: nat, cfg: Config, nodes: seq<Id>, frames: seq<Frame>, view: View, from: Option<Id>, out: Outcome)
    requires |nodes| == |frames| + 1 && |frames| > 0 && memory >= 1
    requires cfg.pathMemory >= memory && view.id == nodes[|frames|] && frames[|frames| - 1].path != []
    requires out.Forwarded?
    requires HandleResult(cfg, view, frames[|frames| - 1], Excluded(frames[|frames| - 1], from, view.id), out)
    ensures HandedOn(memory, cfg.maxHops, nodes + [out.next], frames + [out.frame], |frames|)
  {
    hide Remembered, Xor, UsablePeers;
    var n, f := nodes + [out.next], frames + [out.frame];
    assert IsRemembered(memory, f[|frames| - 1].path, n[|frames|], f[|frames|].path, cfg.pathMemory);
  }

  /** What a forwarder's handler promises is exactly one more hop of such a walk. */
  lemma ForwardExtendsWalk(
    memory: nat, cfg: Config, nodes: seq<Id>, frames: seq<Frame>, view: View, from: Option<Id>, out: Outcome)
    requires Walk(memory, cfg.maxHops, nodes, frames) && |frames| > 0
    requires cfg.pathMemory >= memory && view.id == nodes[|frames|]
    requires out.Forwarded?
    requires HandleResult(cfg, view, frames[|frames| - 1], Excluded(frames[|frames| - 1], from, view.id), out)
    ensures Walk(memory, cfg.maxHops, nodes + [out.next], frames + [out.frame])
  {
    hide Remembered, Excluded, KeptAtLeast;
    CarriedPath(memory, cfg.maxHops, nodes, frames, |frames| - 1);
    ForwardHandsOn(memory, cfg, nodes, frames, view, from, out);
    var n, f := nodes + [out.next], frames + [out.frame];
    forall i | 0 < i < |f| ensures HandedOn(memory, cfg.maxHops, n, f, i) {
      if i < |frames| {
        assert HandedOn(memory, cfg.maxHops, nodes, frames, i);
        assert f[i] == frames[i] && f[i - 1] == frames[i - 1];
      }
    }
  }

  /** What the originator promises is the first hop of such a walk, whatever memory its forwarders keep. */
  lemma OriginBeginsWalk(memory: nat, cfg: Config, view: View, target: Id, rpath: seq<Id>, out: Outcome)
    requires memory >= 1 && out.Forwarded? && OriginResult(cfg, view, target, rpath, out)
    ensures Walk(memory, cfg.maxHops, [view.id, out.next], [out.frame])
  {
  }

  /** The originator takes a return route exactly while the transport says that a channel to its first node is open. */
  lemma OriginRouteFirst(cfg: Config, view: View, target: Id, rpath: seq<Id>, out: Outcome)
    requires OriginResult(cfg, view, target, rpath, out) && out.Forwarded? && out.how != Reselected
    ensures out.how == ReturnRoute <==>
            rpath != [] && view.connected.Some? && rpath[0] != view.id && rpath[0] in view.connected.value
    ensures out.how == ReturnRoute ==> out.next == rpath[0]
  {
    hide Xor;
  }

  /** An originator that stops as a terminal knows no live, connected neighbour nearer the target, and heard of no nearer node from one. */
  lemma OriginTerminalIsMinimum(cfg: Config, view: View, target: Id, rpath: seq<Id>, out: Outcome, e: Id)
    requires OriginResult(cfg, view, target, rpath, out) && (out == Terminal || out == NoCapableTerminal)
    requires Open(view, Unsent(target, rpath), None, e)
    ensures e in view.managed || e in view.incomingPool || e in view.reverse ==> Xor(view.id, target) <= Xor(e, target)
    ensures e in view.managed || e in view.incomingPool ==>
              forall n :: Answer(e, n) in view.answers ==> Xor(view.id, target) <= Xor(n, target)
    ensures out == Terminal <==> view.capable
    ensures out == NoCapableTerminal ==> e !in view.managed && e !in view.incomingPool && view.bridge != Some(e)
  {
    hide Xor, UsablePeers, Adjacent;
    OpenIsUsable(view, Unsent(target, rpath), None, e);
    assert Excluded(Unsent(target, rpath), None, view.id) == {view.id};
  }

  /** One hop after another along a return route: every result forwarded, each by the route the frame before carried. */
  ghost predicate AlongRoute(cfg: Config, views: seq<View>, froms: seq<Option<Id>>, target: Id, route: seq<Id>, outs: seq<Outcome>) {
    && |views| == |froms| == |outs| > 0
    && (forall i :: 0 <= i < |outs| ==> outs[i].Forwarded? && outs[i].how == ReturnRoute)
    && OriginResult(cfg, views[0], target, route, outs[0])
    && forall i :: 0 < i < |outs| ==> Relayed(cfg, views, froms, outs, i)
  }

  ghost predicate Relayed(cfg: Config, views: seq<View>, froms: seq<Option<Id>>, outs: seq<Outcome>, i: nat)
    requires 0 < i < |outs| == |views| == |froms| && outs[i - 1].Forwarded?
  {
    var frame := outs[i - 1].frame;
    HandleResult(cfg, views[i], frame, Excluded(frame, froms[i], views[i].id), outs[i])
  }

  function Shorter(a: nat, b: nat): nat {
    if a < b then a else b
  }

  lemma RouteHandedOn(cfg: Config, view: View, frame: Frame, exclude: set<Id>, out: Outcome)
    requires HandleResult(cfg, view, frame, exclude, out) && out.Forwarded? && out.how == ReturnRoute
    ensures frame.rpath != [] && out.next == frame.rpath[0] && out.frame.rpath == RestOfRoute(frame.rpath)
  {
    hide AtMinimum, IsNearest, IsTwoHop, IsFallback, Remembered, Xor, RestOfRoute;
  }

  lemma RouteTaken(cfg: Config, view: View, target: Id, route: seq<Id>, out: Outcome)
    requires OriginResult(cfg, view, target, route, out) && out.Forwarded? && out.how == ReturnRoute
    ensures route != [] && out.next == route[0] && out.frame.rpath == RestOfRoute(route)
  {
    hide AtMinimum, IsNearest, IsTwoHop, IsFallback, Xor, RestOfRoute;
  }

  /** A message sent along a return route visits the nodes of the route in order, and no more than the route is long. */
  lemma {:induction false} RouteIsFollowed(
    cfg: Config, views: seq<View>, froms: seq<Option<Id>>, target: Id, route: seq<Id>, outs: seq<Outcome>, i: nat)
    requires AlongRoute(cfg, views, froms, target, route, outs) && i < |outs|
    ensures i < Shorter(|route|, SIGNAL_RPATH_MAX) && outs[i].next == route[i]
    ensures outs[i].frame.rpath == route[i + 1..Shorter(|route|, SIGNAL_RPATH_MAX)]
  {
    hide HandleResult, OriginResult;
    if i > 0 {
      RouteIsFollowed(cfg, views, froms, target, route, outs, i - 1);
      assert Relayed(cfg, views, froms, outs, i);
      var frame := outs[i - 1].frame;
      RouteHandedOn(cfg, views[i], frame, Excluded(frame, froms[i], views[i].id), outs[i]);
    } else {
      RouteTaken(cfg, views[0], target, route, outs[0]);
    }
  }

  lemma RememberedTail(memory: nat, nodes: seq<Id>, i: nat, p: seq<Id>, m: nat)
    requires 1 <= memory <= m && i < |nodes| && |p| <= i && p == nodes[i - |p|..i]
    requires |p| >= memory || |p| == i
    ensures var r := Remembered(p, nodes[i], m);
            && 1 <= |r| <= i + 1
            && (|r| >= memory || |r| == i + 1)
            && r == nodes[i + 1 - |r|..i + 1]
  {
    var kept := SliceLast(p, m - 1);
    assert kept == nodes[i - |kept|..i];
    assert nodes[i - |kept|..i + 1] == nodes[i - |kept|..i] + [nodes[i]];
  }

  /** The path a frame carries is the tail of the walk, at least as long as the memory allows. */
  lemma {:induction false} CarriedPath(memory: nat, maxHops: nat, nodes: seq<Id>, frames: seq<Frame>, i: nat)
    requires Walk(memory, maxHops, nodes, frames) && i < |frames|
    ensures 1 <= |frames[i].path| <= i + 1
    ensures |frames[i].path| >= memory || |frames[i].path| == i + 1
    ensures frames[i].path == nodes[i + 1 - |frames[i].path|..i + 1]
    ensures frames[i].hops == i + 1
  {
    hide Remembered;
    if i > 0 {
      CarriedPath(memory, maxHops, nodes, frames, i - 1);
      assert HandedOn(memory, maxHops, nodes, frames, i);
      var m: nat :| IsRemembered(memory, frames[i - 1].path, nodes[i], frames[i].path, m);
      RememberedTail(memory, nodes, i, frames[i - 1].path, m);
    } else {
      assert nodes[0..1] == [nodes[0]];
    }
  }

  lemma HopAvoidsCarried(memory: nat, maxHops: nat, nodes: seq<Id>, frames: seq<Frame>, j: nat)
    requires Walk(memory, maxHops, nodes, frames) && 1 <= j < |nodes|
    ensures nodes[j] != nodes[j - 1]
    ensures j >= 2 ==> nodes[j] !in frames[j - 2].path
  {
    hide KeptAtLeast;
    if j >= 2 {
      assert HandedOn(memory, maxHops, nodes, frames, j - 1);
    }
  }

  lemma InTail(nodes: seq<Id>, p: seq<Id>, end: nat, i: nat)
    requires |p| <= end <= |nodes| && p == nodes[end - |p|..end] && end - |p| <= i < end
    ensures nodes[i] in p
  {
    assert p[i - (end - |p|)] == nodes[i];
  }

  /** Any `memory + 2` consecutive nodes of a walk are pairwise distinct. */
  lemma NoShortCircle(memory: nat, maxHops: nat, nodes: seq<Id>, frames: seq<Frame>, i: nat, j: nat)
    requires Walk(memory, maxHops, nodes, frames)
    requires i < j < |nodes| && j - i <= memory + 1
    ensures nodes[i] != nodes[j]
  {
    hide HandedOn;
    HopAvoidsCarried(memory, maxHops, nodes, frames, j);
    if i < j - 1 {
      CarriedPath(memory, maxHops, nodes, frames, j - 2);
      InTail(nodes, frames[j - 2].path, j - 1, i);
    }
  }

  /** Hop counts: the last node of a walk is short of the limit, or it is the originator's own next hop. */
  lemma WalkIsShort(memory: nat, maxHops: nat, nodes: seq<Id>, frames: seq<Frame>)
    requires Walk(memory, maxHops, nodes, frames)
    ensures |frames| <= 1 || |frames| < maxHops
    ensures maxHops >= 2 ==> |frames| < maxHops
  {
    if |frames| > 1 {
      CarriedPath(memory, maxHops, nodes, frames, |frames| - 1);
      assert HandedOn(memory, maxHops, nodes, frames, |frames| - 1);
    }
  }

  /** Every walk stays below the limit exactly when the limit is at least two. */
  lemma ShortExactlyFromTwo(memory: nat, maxHops: nat)
    requires memory >= 1
    ensures (forall nodes: seq<Id>, frames :: Walk(memory, maxHops, nodes, frames) ==> |frames| < maxHops)
            <==> maxHops >= 2
  {
    forall nodes: seq<Id>, frames | maxHops >= 2 && Walk(memory, maxHops, nodes, frames) ensures |frames| < maxHops {
      WalkIsShort(memory, maxHops, nodes, frames);
    }
    if maxHops < 2 {
      var nodes, frames := [0, 1], [Frame(0, 1, [0], None, [])];
      assert Walk(memory, maxHops, nodes, frames);
    }
  }

  /** A memory of one keeps the whole path instead: `slice(-0)` drops nothing, so nothing is ever revisited. */
  ghost predicate MemoryOne(nodes: seq<Id>, frames: seq<Frame>) {
    |nodes| == |frames| + 1 &&
    forall i :: 0 < i < |frames| ==> SentWithMemoryOne(nodes, frames, i)
  }

  ghost predicate SentWithMemoryOne(nodes: seq<Id>, frames: seq<Frame>, i: nat)
    requires 0 < i < |frames| && |nodes| == |frames| + 1
  {
    frames[i].path == Remembered(frames[i - 1].path, nodes[i], 1)
  }

  lemma {:induction false} MemoryOneKeepsAll(maxHops: nat, nodes: seq<Id>, frames: seq<Frame>, i: nat)
    requires Walk(1, maxHops, nodes, frames) && MemoryOne(nodes, frames) && i < |frames|
    ensures frames[i].path == nodes[..i + 1]
  {
    if i > 0 {
      MemoryOneKeepsAll(maxHops, nodes, frames, i - 1);
      assert SentWithMemoryOne(nodes, frames, i);
      assert nodes[..i + 1] == nodes[..i] + [nodes[i]];
    } else {
      assert nodes[..1] == [nodes[0]];
    }
  }

  lemma MemoryOneNeverRevisits(maxHops: nat, nodes: seq<Id>, frames: seq<Frame>, i: nat, j: nat)
    requires Walk(1, maxHops, nodes, frames) && MemoryOne(nodes, frames) && i < j < |nodes|
    ensures nodes[i] != nodes[j]
  {
    if j >= 2 {
      MemoryOneKeepsAll(maxHops, nodes, frames, j - 2);
      assert HandedOn(1, maxHops, nodes, frames, j - 1);
      if i < j - 1 {
        assert nodes[..j - 1][i] == nodes[i];
      }
    }
  }

  /** With any other memory the path a frame carries never exceeds it. */
  lemma MemoryBoundsPath(path: seq<Id>, me: Id, m: nat)
    requires m >= 1
    ensures |Remembered(path, me, m)| <= m <==> m != 1 || path == []
  {
  }
}
