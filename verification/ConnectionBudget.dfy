/** Bilateral connection budgets: links held at both ends, four caps, and a swap that spreads a full node's peers. */
module ConnectionBudget {

  import opened Counting
  import opened KeySpace
  import opened Nearest
  import opened Options
  import opened Strata

  datatype Cap = Unlimited | AtMost(n: nat)

  predicate Full(cap: Cap, n: int) {
    cap.AtMost? && n >= cap.n
  }

  predicate Within(cap: Cap, n: int) {
    cap.AtMost? ==> n <= cap.n
  }

  datatype Limits = Limits(connections: Cap, outgoing: Cap, incoming: Cap)

  /** One node's links: all of them in the order they were made, and those it initiated. */
  datatype Links = Links(conns: seq<Id>, out: set<Id>, limits: Limits)

  type Net = map<Id, Links>

  // ---- the invariant ----

  ghost predicate NodeOk(net: Net, a: Id)
    requires a in net
  {
    var l := net[a];
    && Distinct(l.conns)
    && a !in l.conns
    && l.out <= Members(l.conns)
    && Within(l.limits.connections, |l.conns|)
    && Within(l.limits.outgoing, |l.out|)
    && Within(l.limits.incoming, |l.conns| - |l.out|)
  }

  /** Links are held at both ends, and each is outbound at exactly one of them. */
  ghost predicate LinkOk(net: Net, a: Id, b: Id)
    requires a in net
  {
    b in net[a].conns ==>
      && b in net && a in net[b].conns
      && (b in net[a].out <==> a !in net[b].out)
  }

  ghost predicate Sound(net: Net) {
    && (forall a :: a in net ==> NodeOk(net, a))
    && (forall a, b :: a in net ==> LinkOk(net, a, b))
  }

  /** A network starts sound: nobody is linked. */
  lemma UnlinkedNetworkSound(net: Net)
    requires forall a :: a in net ==> net[a].conns == [] && net[a].out == {}
    ensures Sound(net)
  {
  }

  function Unlinked(l: Links, b: Id): Links {
    l.(conns := Without(l.conns, b), out := l.out - {b})
  }

  /** Both ends let the link go. */
  function Drop(net: Net, a: Id, b: Id): Net {
    map i | i in net :: if i == a then Unlinked(net[a], b) else if i == b then Unlinked(net[b], a) else net[i]
  }

  /** The first node links to the second, outbound at its own end. */
  function Add(net: Net, a: Id, b: Id): Net {
    map i | i in net ::
      if i == a then net[a].(conns := net[a].conns + [b], out := net[a].out + {b})
      else if i == b then net[b].(conns := net[b].conns + [a])
      else net[i]
  }

  lemma UnlinkedOk(net: Net, a: Id, b: Id)
    requires a in net && NodeOk(net, a)
    ensures var u := Unlinked(net[a], b);
            && Distinct(u.conns) && Members(u.conns) == Members(net[a].conns) - {b}
            && (forall e :: e in u.conns <==> e in net[a].conns && e != b)
            && a !in u.conns && u.out <= Members(u.conns)
            && |u.conns| <= |net[a].conns| && |u.out| <= |net[a].out| && |u.conns| - |u.out| <= |net[a].conns| - |net[a].out|
  {
    WithoutFacts(net[a].conns, b);
    var u := Unlinked(net[a], b);
    forall e ensures e in u.conns <==> e in net[a].conns && e != b {
      assert e in u.conns <==> e in Members(u.conns);
      assert e in net[a].conns <==> e in Members(net[a].conns);
    }
    if b in net[a].out {
      assert net[a].out == u.out + {b};
      assert b in Members(net[a].conns);
    } else {
      assert u.out == net[a].out;
    }
    if b !in net[a].conns {
      assert b !in Members(net[a].conns);
    }
  }

  lemma DropNodeOk(net: Net, a: Id, b: Id, i: Id)
    requires Sound(net) && a in net && b in net && a != b && i in net
    ensures NodeOk(Drop(net, a, b), i)
  {
    hide Without, Distinct, Members, LinkOk;
    assert NodeOk(net, i);
    if i == a || i == b {
      UnlinkedOk(net, i, if i == a then b else a);
    }
  }

  lemma DropLinkOk(net: Net, a: Id, b: Id, i: Id, j: Id)
    requires Sound(net) && a in net && b in net && a != b && i in net
    ensures LinkOk(Drop(net, a, b), i, j)
  {
    hide Without, Distinct, Members, NodeOk;
    UnlinkedOk(net, a, b);
    UnlinkedOk(net, b, a);
    assert LinkOk(net, i, j);
  }

  /** Dropping a link, or what is none, keeps the network sound. */
  lemma DropSound(net: Net, a: Id, b: Id)
    requires Sound(net) && a in net && b in net && a != b
    ensures Sound(Drop(net, a, b))
  {
    hide NodeOk, LinkOk;
    var d := Drop(net, a, b);
    forall i | i in d ensures NodeOk(d, i) {
      DropNodeOk(net, a, b, i);
    }
    forall i, j | i in d ensures LinkOk(d, i, j) {
      DropLinkOk(net, a, b, i, j);
    }
  }

  lemma LinkedBothWays(net: Net, a: Id, b: Id)
    requires Sound(net) && a in net && b in net
    ensures b in net[a].conns <==> a in net[b].conns
  {
    assert LinkOk(net, a, b) && LinkOk(net, b, a);
  }

  ghost predicate RoomForLink(net: Net, a: Id, b: Id) {
    && a in net && b in net && a != b && b !in net[a].conns
    && !Full(net[a].limits.connections, |net[a].conns|) && !Full(net[b].limits.connections, |net[b].conns|)
    && !Full(net[a].limits.outgoing, |net[a].out|)
    && !Full(net[b].limits.incoming, |net[b].conns| - |net[b].out|)
  }

  lemma AddNodeOk(net: Net, a: Id, b: Id, i: Id)
    requires Sound(net) && RoomForLink(net, a, b) && i in net
    ensures NodeOk(Add(net, a, b), i)
  {
    hide Distinct, Members, LinkOk;
    LinkedBothWays(net, a, b);
    assert NodeOk(net, i);
    if i == a || i == b {
      Appended(net[i].conns, if i == a then b else a);
      InMembers(net[i].conns, if i == a then b else a);
    }
  }

  lemma AddLinkOk(net: Net, a: Id, b: Id, i: Id, j: Id)
    requires Sound(net) && RoomForLink(net, a, b) && i in net
    ensures LinkOk(Add(net, a, b), i, j)
  {
    hide Distinct, Members;
    LinkedBothWays(net, a, b);
    OutIsLinked(net, a, b);
    OutIsLinked(net, b, a);
    assert LinkOk(net, i, j);
  }

  lemma OutIsLinked(net: Net, a: Id, b: Id)
    requires Sound(net) && a in net
    ensures b in net[a].out ==> b in net[a].conns
  {
    assert NodeOk(net, a);
    InMembers(net[a].conns, b);
  }

  /** A new link with room at every gate keeps the network sound. */
  lemma AddSound(net: Net, a: Id, b: Id)
    requires Sound(net) && RoomForLink(net, a, b)
    ensures Sound(Add(net, a, b))
  {
    hide NodeOk, LinkOk, RoomForLink;
    var d := Add(net, a, b);
    forall i | i in d ensures NodeOk(d, i) {
      AddNodeOk(net, a, b, i);
    }
    forall i, j | i in d ensures LinkOk(d, i, j) {
      AddLinkOk(net, a, b, i, j);
    }
  }

  /** A link between two nodes not linked keeps the network sound exactly when there is room for it at every gate. */
  lemma AddSoundIff(net: Net, a: Id, b: Id)
    requires Sound(net) && a in net && b in net && a != b && b !in net[a].conns
    ensures Sound(Add(net, a, b)) <==> RoomForLink(net, a, b)
  {
    hide LinkOk;
    if RoomForLink(net, a, b) {
      AddSound(net, a, b);
    } else {
      LinkedBothWays(net, a, b);
      OutIsLinked(net, a, b);
      var d := Add(net, a, b);
      assert NodeOk(net, a) && NodeOk(net, b);
      assert !(NodeOk(d, a) && NodeOk(d, b));
    }
  }

  lemma InMembers(s: seq<Id>, e: Id)
    ensures e in s <==> e in Members(s)
  {
  }

  // ---- strata ----

  const TOP_STRATUM: nat := ID_BITS - 1

  function StratumOf(self: Id, e: Id): (s: nat)
    ensures s < ID_BITS
  {
    var c := Clz264(Xor(self, e));
    if c < TOP_STRATUM then c else TOP_STRATUM
  }

  /** Stratum by stratum the distance halves; the last holds the two ids nearest, this node's own among them. */
  lemma StratumDistance(self: Id, e: Id, s: nat)
    requires Xor(self, e) < Pow(2, ID_BITS) && s < TOP_STRATUM
    ensures StratumOf(self, e) <= s <==> Pow(2, ID_BITS - 1 - s) <= Xor(self, e)
  {
    hide Xor, Clz264;
    ClzBound(Xor(self, e), s);
  }

  ghost function StrataOf(self: Id): Id -> nat {
    e => StratumOf(self, e)
  }

  ghost function Crowd(self: Id, conns: seq<Id>): nat {
    Crowding(StrataOf(self), Members(conns), ID_BITS)
  }

  ghost function Peers(self: Id, conns: seq<Id>, s: nat): nat {
    Count(StrataOf(self), Members(conns), s)
  }

  /** A stratum other than the candidate's holds at least two peers more than the candidate's. */
  ghost predicate CanSwap(self: Id, conns: seq<Id>, candidate: Id) {
    exists s :: Crowded(self, conns, candidate, s)
  }

  ghost predicate Crowded(self: Id, conns: seq<Id>, candidate: Id, s: nat) {
    s < ID_BITS && s != StratumOf(self, candidate) &&
    Peers(self, conns, s) >= Peers(self, conns, StratumOf(self, candidate)) + 2
  }

  /** The first peer of the lowest of the fullest strata other than the candidate's. */
  ghost predicate IsVictim(self: Id, conns: seq<Id>, candidate: Id, v: Id) {
    var s := StratumOf(self, v);
    && Crowded(self, conns, candidate, s)
    && (forall r :: 0 <= r < ID_BITS && r != StratumOf(self, candidate) ==> Peers(self, conns, r) <= Peers(self, conns, s))
    && (forall r :: 0 <= r < s && r != StratumOf(self, candidate) ==> Peers(self, conns, r) < Peers(self, conns, s))
    && FirstOf(self, conns, s, v)
  }

  ghost predicate FirstOf(self: Id, conns: seq<Id>, s: nat, v: Id) {
    exists i :: 0 <= i < |conns| && conns[i] == v && forall j :: 0 <= j < i ==> StratumOf(self, conns[j]) != s
  }

  /** Evicting the victim and adding the candidate spreads the peers strictly better and empties no stratum. */
  lemma SwapSpreads(self: Id, conns: seq<Id>, candidate: Id, v: Id)
    requires Distinct(conns) && candidate !in conns && IsVictim(self, conns, candidate, v)
    ensures Crowd(self, Without(conns, v) + [candidate]) < Crowd(self, conns)
    ensures forall s :: Peers(self, conns, s) > 0 ==> Peers(self, Without(conns, v) + [candidate], s) > 0
  {
    hide Count, Crowding;
    var before, after := Members(conns), Without(conns, v) + [candidate];
    WithoutFacts(conns, v);
    InMembers(Without(conns, v), candidate);
    InMembers(conns, candidate);
    Appended(Without(conns, v), candidate);
    assert Members(after) == before - {v} + {candidate};
    VictimHeld(self, conns, candidate, v);
    CrowdingFallsIff(StrataOf(self), before, v, candidate, ID_BITS);
    forall s | Peers(self, conns, s) > 0 ensures Peers(self, after, s) > 0 {
      CountWithout(StrataOf(self), before, v, s);
      CountWith(StrataOf(self), before - {v}, candidate, s);
    }
  }

  lemma VictimHeld(self: Id, conns: seq<Id>, candidate: Id, v: Id)
    requires IsVictim(self, conns, candidate, v)
    ensures v in Members(conns) && Crowded(self, conns, candidate, StratumOf(self, v))
    ensures StrataOf(self)(v) == StratumOf(self, v) && StrataOf(self)(candidate) == StratumOf(self, candidate)
  {
    var i :| 0 <= i < |conns| && conns[i] == v;
  }

  /** A node can swap exactly when giving up one of its peers for the candidate spreads the rest more evenly. */
  lemma CanSwapIffSpreads(self: Id, conns: seq<Id>, candidate: Id)
    requires candidate !in conns
    ensures CanSwap(self, conns, candidate) <==>
            exists v :: v in conns && Lowers(self, Members(conns), v, candidate)
  {
    hide Count, Crowding, StratumOf;
    var ids := Members(conns);
    if CanSwap(self, conns, candidate) {
      var s :| Crowded(self, conns, candidate, s);
      var v := HasPeer(self, conns, s);
      CrowdingFallsIff(StrataOf(self), ids, v, candidate, ID_BITS);
      assert Lowers(self, ids, v, candidate);
    }
    forall v | v in conns && Lowers(self, ids, v, candidate) ensures CanSwap(self, conns, candidate) {
      CrowdingFallsIff(StrataOf(self), ids, v, candidate, ID_BITS);
      assert Crowded(self, conns, candidate, StratumOf(self, v));
    }
  }

  ghost predicate Lowers(self: Id, ids: set<Id>, v: Id, candidate: Id) {
    Crowding(StrataOf(self), ids - {v} + {candidate}, ID_BITS) < Crowding(StrataOf(self), ids, ID_BITS)
  }

  lemma HasPeer(self: Id, conns: seq<Id>, s: nat) returns (v: Id)
    requires Peers(self, conns, s) > 0
    ensures v in conns && StratumOf(self, v) == s
  {
    assert InClass(StrataOf(self), Members(conns), s) != {};
    v :| v in InClass(StrataOf(self), Members(conns), s);
  }

  /** The victim comes from a fullest stratum other than the candidate's, from the lowest of these, and is the first made there. */
  lemma VictimGoesFirst(self: Id, conns: seq<Id>, candidate: Id, v: Id, i: nat)
    requires IsVictim(self, conns, candidate, v)
    requires i < |conns| && conns[i] != v && StratumOf(self, conns[i]) != StratumOf(self, candidate)
    ensures var s, r := StratumOf(self, v), StratumOf(self, conns[i]);
            || Peers(self, conns, s) > Peers(self, conns, r)
            || (Peers(self, conns, s) == Peers(self, conns, r) && s < r)
            || (s == r && v in conns[..i])
  {
    hide Count, StratumOf;
    var s := StratumOf(self, v);
    var at :| 0 <= at < |conns| && conns[at] == v && forall j :: 0 <= j < at ==> StratumOf(self, conns[j]) != s;
    assert at < i ==> conns[..i][at] == v;
    assert StratumOf(self, conns[i]) < ID_BITS;
  }

  lemma VictimIsUnique(self: Id, conns: seq<Id>, candidate: Id, v: Id, w: Id)
    requires IsVictim(self, conns, candidate, v) && IsVictim(self, conns, candidate, w)
    ensures v == w
  {
    hide Count, StratumOf;
  }

  ghost predicate IsFullest(self: Id, conns: seq<Id>, candidate: Id, s: nat, n: nat) {
    && s < n && IsOther(self, candidate, s)
    && (forall r :: 0 <= r < n && IsOther(self, candidate, r) ==> Peers(self, conns, r) <= Peers(self, conns, s))
    && (forall r :: 0 <= r < s && IsOther(self, candidate, r) ==> Peers(self, conns, r) < Peers(self, conns, s))
  }

  lemma {:induction false} FullestExists(self: Id, conns: seq<Id>, candidate: Id, n: nat) returns (s: Option<nat>)
    ensures s.Some? ==> IsFullest(self, conns, candidate, s.value, n)
    ensures s.None? ==> forall r :: 0 <= r < n ==> !IsOther(self, candidate, r)
  {
    hide Peers, StratumOf;
    s := None;
    if n > 0 {
      var t := FullestExists(self, conns, candidate, n - 1);
      s := if IsOther(self, candidate, n - 1) && (t.None? || Peers(self, conns, n - 1) > Peers(self, conns, t.value))
           then Some(n - 1) else t;
      assert t.None? ==> forall r :: 0 <= r < n - 1 ==> !IsOther(self, candidate, r);
    }
  }

  predicate IsOther(self: Id, candidate: Id, r: nat) {
    r != StratumOf(self, candidate)
  }

  lemma {:induction false} FirstExists(self: Id, conns: seq<Id>, s: nat, e: Id) returns (v: Id)
    requires e in conns && StratumOf(self, e) == s
    ensures v in conns && StratumOf(self, v) == s && FirstOf(self, conns, s, v)
  {
    hide StratumOf;
    if StratumOf(self, conns[0]) == s {
      v := conns[0];
    } else {
      v := FirstExists(self, conns[1..], s, e);
      var i :| 0 <= i < |conns[1..]| && conns[1..][i] == v && forall j :: 0 <= j < i ==> StratumOf(self, conns[1..][j]) != s;
      forall j | 0 <= j < i + 1 ensures StratumOf(self, conns[j]) != s {
        assert j > 0 ==> conns[j] == conns[1..][j - 1];
      }
      assert conns[i + 1] == v;
    }
  }

  /** There is a victim exactly when the node can swap. */
  lemma VictimExistsIff(self: Id, conns: seq<Id>, candidate: Id)
    ensures CanSwap(self, conns, candidate) <==> exists v :: IsVictim(self, conns, candidate, v)
  {
    hide Count, StratumOf, FirstOf;
    if CanSwap(self, conns, candidate) {
      var r :| Crowded(self, conns, candidate, r);
      var s := FullestExists(self, conns, candidate, ID_BITS);
      assert IsOther(self, candidate, r);
      assert Peers(self, conns, r) <= Peers(self, conns, s.value);
      assert Crowded(self, conns, candidate, s.value);
      var e := HasPeer(self, conns, s.value);
      var v := FirstExists(self, conns, s.value, e);
      assert IsVictim(self, conns, candidate, v);
    }
  }

  // ---- the nodes ----

  class DHTNode {
    const id: Id
    const limits: Limits
    var connections: seq<Id>
    var outboundConns: set<Id>

    constructor (id: Id, limits: Limits)
      ensures this.id == id && this.limits == limits && connections == [] && outboundConns == {}
    {
      this.id, this.limits := id, limits;
      connections, outboundConns := [], {};
    }

    function Held(): Links
      reads this
    {
      Links(connections, outboundConns, limits)
    }

    method AddOutbound(other: Id)
      modifies this
      ensures Held() == old(Held()).(conns := old(connections) + [other], out := old(outboundConns) + {other})
    {
      connections := connections + [other];
      outboundConns := outboundConns + {other};
    }

    method Forget(other: Id)
      modifies this
      ensures Held() == Unlinked(old(Held()), other)
    {
      connections := Without(connections, other);
      outboundConns := outboundConns - {other};
    }

    /** The occupancy of every stratum, in a table of one cell each. */
    method CountStrata() returns (counts: array<nat>)
      requires Distinct(connections)
      ensures fresh(counts) && counts.Length == ID_BITS
      ensures forall s :: 0 <= s < ID_BITS ==> counts[s] == Peers(id, connections, s)
    {
      hide Count;
      counts := new nat[ID_BITS](i => 0);
      forall s | 0 <= s < ID_BITS ensures Peers(id, connections[..0], s) == 0 {
        NoPeers(id, s);
      }
      for i := 0 to |connections|
        invariant counts.Length == ID_BITS && fresh(counts)
        invariant forall s :: 0 <= s < ID_BITS ==> counts[s] == Peers(id, connections[..i], s)
      {
        var s := StratumOf(id, connections[i]);
        forall r | 0 <= r < ID_BITS
          ensures Peers(id, connections[..i + 1], r) == Peers(id, connections[..i], r) + if r == s then 1 else 0
        {
          OneMorePeer(id, connections, i, r);
        }
        counts[s] := counts[s] + 1;
      }
      assert connections[..|connections|] == connections;
    }

    /** `_chooseVictim`: the first peer of a stratum. */
    method ChooseVictim(stratum: nat) returns (v: Option<Id>)
      ensures v.None? ==> forall e :: e in connections ==> StratumOf(id, e) != stratum
      ensures v.Some? ==> StratumOf(id, v.value) == stratum && FirstOf(id, connections, stratum, v.value)
    {
      for i := 0 to |connections|
        invariant forall j :: 0 <= j < i ==> StratumOf(id, connections[j]) != stratum
      {
        if StratumOf(id, connections[i]) == stratum {
          return Some(connections[i]);
        }
      }
      return None;
    }

    /** The first half of `_trySwapIn`: whom this node would give up for the candidate. */
    method SwapVictim(candidate: Id) returns (victim: Option<Id>)
      requires Distinct(connections)
      ensures victim.None? <==> !CanSwap(id, connections, candidate)
      ensures victim.Some? ==> IsVictim(id, connections, candidate, victim.value)
    {
      hide Count, StratumOf;
      var candidateStratum := StratumOf(id, candidate);
      var counts := CountStrata();
      var evict: Option<nat> := None;
      var maxCount := 0;
      for s := 0 to ID_BITS
        invariant counts.Length == ID_BITS
        invariant forall r :: 0 <= r < ID_BITS ==> counts[r] == Peers(id, connections, r)
        invariant forall r :: 0 <= r < s && r != candidateStratum ==> Peers(id, connections, r) <= maxCount
        invariant evict.None? ==> maxCount == 0
        invariant evict.Some? ==>
                    && evict.value < s && evict.value != candidateStratum
                    && maxCount == Peers(id, connections, evict.value)
                    && forall r :: 0 <= r < evict.value && r != candidateStratum ==> Peers(id, connections, r) < maxCount
      {
        if s != candidateStratum && counts[s] > maxCount {
          maxCount, evict := counts[s], Some(s);
        }
      }
      if maxCount <= counts[candidateStratum] + 1 {
        assert forall s :: !Crowded(id, connections, candidate, s);
        return None;
      }
      assert Crowded(id, connections, candidate, evict.value);
      victim := ChooseVictim(evict.value);
      if victim.None? {
        EmptyStratum(id, connections, evict.value);
        assert false;
      }
    }
  }

  lemma NoPeers(self: Id, s: nat)
    ensures Peers(self, [], s) == 0
  {
    assert InClass(StrataOf(self), Members([]), s) == {};
  }

  lemma OneMorePeer(self: Id, conns: seq<Id>, i: nat, r: nat)
    requires Distinct(conns) && i < |conns|
    ensures Peers(self, conns[..i + 1], r) ==
            Peers(self, conns[..i], r) + if r == StratumOf(self, conns[i]) then 1 else 0
  {
    assert Members(conns[..i + 1]) == Members(conns[..i]) + {conns[i]};
    CountWith(StrataOf(self), Members(conns[..i]), conns[i], r);
  }

  lemma EmptyStratum(self: Id, conns: seq<Id>, s: nat)
    requires forall e :: e in conns ==> StratumOf(self, e) != s
    ensures Peers(self, conns, s) == 0
  {
    assert InClass(StrataOf(self), Members(conns), s) == {};
  }

  // ---- the network ----

  /** The nodes of a network by id, as `network.nodes` has them. */
  ghost predicate IsNetwork(nodes: map<Id, DHTNode>)
  {
    forall i :: i in nodes ==> nodes[i].id == i
  }

  function Snapshot(nodes: map<Id, DHTNode>): Net
    reads nodes.Values
  {
    map i | i in nodes :: nodes[i].Held()
  }

  lemma DistinctNodes(nodes: map<Id, DHTNode>, i: Id, j: Id)
    requires IsNetwork(nodes) && i in nodes && j in nodes
    ensures nodes[i] == nodes[j] <==> i == j
  {
  }

  /** `disconnect`. */
  method Disconnect(nodes: map<Id, DHTNode>, a: DHTNode, b: DHTNode)
    requires IsNetwork(nodes) && a.id in nodes && b.id in nodes && nodes[a.id] == a && nodes[b.id] == b && a != b
    modifies a, b
    ensures Snapshot(nodes) == Drop(old(Snapshot(nodes)), a.id, b.id)
    ensures old(Sound(Snapshot(nodes))) ==> Sound(Snapshot(nodes))
  {
    a.Forget(b.id);
    b.Forget(a.id);
    assert Snapshot(nodes) == Drop(old(Snapshot(nodes)), a.id, b.id);
    if old(Sound(Snapshot(nodes))) {
      DropSound(old(Snapshot(nodes)), a.id, b.id);
    }
  }

  /** `_trySwapIn`: gives up a peer of the fullest stratum, on both sides, when that spreads this node's peers. */
  method TrySwapIn(nodes: map<Id, DHTNode>, n: DHTNode, candidate: DHTNode) returns (ok: bool, victim: Option<Id>)
    requires IsNetwork(nodes) && n.id in nodes && nodes[n.id] == n
    requires Sound(Snapshot(nodes)) && candidate.id !in n.connections
    modifies nodes.Values
    ensures ok <==> old(CanSwap(n.id, n.connections, candidate.id))
    ensures ok <==> victim.Some?
    ensures !ok ==> Snapshot(nodes) == old(Snapshot(nodes))
    ensures ok ==> victim.value in nodes && victim.value != n.id && IsVictim(n.id, old(n.connections), candidate.id, victim.value)
    ensures ok ==> Snapshot(nodes) == Drop(old(Snapshot(nodes)), n.id, victim.value)
    ensures Sound(Snapshot(nodes))
  {
    hide Sound, IsVictim, CanSwap, Without, Distinct, Members;
    ghost var net := Snapshot(nodes);
    SoundNode(net, n.id);
    victim := n.SwapVictim(candidate.id);
    if victim.None? {
      return false, victim;
    }
    var v := victim.value;
    VictimDropped(net, n.id, candidate.id, v);
    DistinctNodes(nodes, n.id, v);
    n.Forget(v);
    nodes[v].Forget(n.id);
    assert Snapshot(nodes) == Drop(net, n.id, v);
    return true, victim;
  }

  lemma SoundNode(net: Net, a: Id)
    requires Sound(net) && a in net
    ensures Distinct(net[a].conns)
  {
    assert NodeOk(net, a);
  }

  lemma VictimDropped(net: Net, a: Id, candidate: Id, v: Id)
    requires Sound(net) && a in net && IsVictim(a, net[a].conns, candidate, v)
    ensures v in net && v != a && v in net[a].conns && Sound(Drop(net, a, v))
  {
    hide IsVictim;
    assert NodeOk(net, a);
    VictimHeld(a, net[a].conns, candidate, v);
    InMembers(net[a].conns, v);
    assert LinkOk(net, a, v);
    DropSound(net, a, v);
  }

  // ---- tryConnect on values ----

  predicate RoomTotal(net: Net, a: Id)
    requires a in net
  {
    !Full(net[a].limits.connections, |net[a].conns|)
  }

  predicate RoomOut(net: Net, a: Id)
    requires a in net
  {
    !Full(net[a].limits.outgoing, |net[a].out|)
  }

  predicate RoomIn(net: Net, b: Id)
    requires b in net
  {
    !Full(net[b].limits.incoming, |net[b].conns| - |net[b].out|)
  }

  /** A swap on behalf of `b`, or nothing at a node with room. */
  ghost predicate Freed(net: Net, a: Id, b: Id, mid: Net)
    requires a in net
  {
    if RoomTotal(net, a) then mid == net
    else exists v :: v in net && v != a && IsVictim(a, net[a].conns, b, v) && mid == Drop(net, a, v)
  }

  /** Whether both ends can be made ready for a link from `a` to `b`. */
  ghost predicate Connects(net: Net, a: Id, b: Id)
    requires a in net && b in net
  {
    && RoomOut(net, a) && RoomIn(net, b)
    && (RoomTotal(net, a) || CanSwap(a, net[a].conns, b))
    && (RoomTotal(net, b) || CanSwap(b, net[b].conns, a))
  }

  /** Only the caller swapped: its peer is gone, and the link it made way for was refused. */
  ghost predicate HalfSwapped(net: Net, a: Id, b: Id)
    requires a in net && b in net
  {
    && RoomOut(net, a) && RoomIn(net, b)
    && !RoomTotal(net, a) && CanSwap(a, net[a].conns, b)
    && !RoomTotal(net, b) && !CanSwap(b, net[b].conns, a)
  }

  /** What a swap of one end leaves at each end and at its victim. */
  lemma AfterSwap(net: Net, a: Id, v: Id, b: Id)
    requires Sound(net) && a in net && b in net && v in net && v in net[a].conns && v != b && a != b
    requires b !in net[a].conns
    ensures var d := Drop(net, a, v);
            && Sound(d)
            && d[a].conns == Without(net[a].conns, v) && d[b] == net[b]
            && RoomTotal(d, a) && (RoomOut(net, a) ==> RoomOut(d, a)) && (RoomIn(net, a) ==> RoomIn(d, a))
            && b !in d[a].conns
  {
    assert NodeOk(net, a) && LinkOk(net, a, v);
    DropSound(net, a, v);
    UnlinkedOk(net, a, v);
    WithoutFacts(net[a].conns, v);
  }

  lemma NothingFreed(net: Net, a: Id, b: Id)
    requires a in net && RoomTotal(net, a)
    ensures Freed(net, a, b, net)
  {
  }

  /** `tryConnect`. */
  method TryConnect(nodes: map<Id, DHTNode>, a: DHTNode, b: DHTNode) returns (ok: bool)
    requires IsNetwork(nodes) && a.id in nodes && b.id in nodes && nodes[a.id] == a && nodes[b.id] == b
    requires Sound(Snapshot(nodes))
    modifies nodes.Values
    ensures Sound(Snapshot(nodes))
    ensures a == b ==> !ok
    ensures a != b ==> (ok <==> b.id in old(a.connections) || Connects(old(Snapshot(nodes)), a.id, b.id))
    ensures a != b && ok ==> b.id in a.connections && a.id in b.connections
    ensures !ok && Snapshot(nodes) != old(Snapshot(nodes)) ==> a != b && HalfSwapped(old(Snapshot(nodes)), a.id, b.id)
    ensures a != b && b.id !in old(a.connections) && HalfSwapped(old(Snapshot(nodes)), a.id, b.id) ==>
              !ok && |a.connections| == |old(a.connections)| - 1
    ensures a != b && ok && b.id !in old(a.connections) ==>
              Joined(old(Snapshot(nodes)), a.id, b.id, Snapshot(nodes))
  {
    hide Sound, IsVictim, CanSwap, Freed, Joined, Drop, Distinct, Members;
    if a == b {
      return false;
    }
    DistinctNodes(nodes, a.id, b.id);
    ghost var net := Snapshot(nodes);
    LinkedBothWays(net, a.id, b.id);
    if b.id in a.connections {
      return true;
    }
    var myFull := Full(a.limits.connections, |a.connections|);
    var theirFull := Full(b.limits.connections, |b.connections|);
    var myOutFull := Full(a.limits.outgoing, |a.outboundConns|);
    var otherInFull := Full(b.limits.incoming, |b.connections| - |b.outboundConns|);
    if !myFull && !theirFull && !myOutFull && !otherInFull {
      NothingFreed(net, a.id, b.id);
      NothingFreed(net, b.id, a.id);
      Link(nodes, a, b, net, net);
      return true;
    }
    if myOutFull || otherInFull {
      return false;
    }
    if myFull {
      var swapped, victim := TrySwapIn(nodes, a, b);
      if !swapped {
        return false;
      }
      SwapReady(net, a.id, victim.value, b.id);
    }
    if !myFull {
      NothingFreed(net, a.id, b.id);
    }
    ghost var mid := Snapshot(nodes);
    if !theirFull {
      NothingFreed(mid, b.id, a.id);
    }
    if theirFull {
      var swapped, victim := TrySwapIn(nodes, b, a);
      if !swapped {
        return false;
      }
      SwapReady(mid, b.id, victim.value, a.id);
    }
    Link(nodes, a, b, net, mid);
    return true;
  }

  /** One end's swap: its slot is free, the other end is as it was, and the network is sound. */
  lemma SwapReady(net: Net, a: Id, v: Id, b: Id)
    requires Sound(net) && a in net && b in net && a != b && b !in net[a].conns && !RoomTotal(net, a)
    requires IsVictim(a, net[a].conns, b, v)
    ensures var d := Drop(net, a, v);
            && Sound(d) && Freed(net, a, b, d) && a in d && b in d && d[b] == net[b]
            && RoomTotal(d, a) && (RoomOut(net, a) ==> RoomOut(d, a)) && (RoomIn(net, a) ==> RoomIn(d, a))
            && b !in d[a].conns && |d[a].conns| == |net[a].conns| - 1
  {
    hide Sound, IsVictim, Distinct, Members;
    SoundNode(net, a);
    VictimDropped(net, a, b, v);
    AfterSwap(net, a, v, b);
    WithoutFacts(net[a].conns, v);
  }

  /** The link as made: each end freed a slot by its own swap where it had none. */
  ghost predicate Joined(net: Net, a: Id, b: Id, after: Net)
    requires a in net && b in net
  {
    exists mid: Net, ready: Net ::
      && Freed(net, a, b, mid) && b in mid && Freed(mid, b, a, ready) && after == Add(ready, a, b)
  }

  method Link(nodes: map<Id, DHTNode>, a: DHTNode, b: DHTNode, ghost net: Net, ghost mid: Net)
    requires IsNetwork(nodes) && a.id in nodes && b.id in nodes && nodes[a.id] == a && nodes[b.id] == b && a != b
    requires Sound(Snapshot(nodes)) && b.id !in a.connections
    requires var ready := Snapshot(nodes);
             && RoomTotal(ready, a.id) && RoomTotal(ready, b.id) && RoomOut(ready, a.id) && RoomIn(ready, b.id)
    requires a.id in net && b.id in net && Freed(net, a.id, b.id, mid) && b.id in mid
    requires Freed(mid, b.id, a.id, Snapshot(nodes))
    modifies a, b
    ensures Sound(Snapshot(nodes)) && Joined(net, a.id, b.id, Snapshot(nodes))
    ensures b.id in a.connections && a.id in b.connections
  {
    hide Sound, Freed, Distinct, Members;
    ghost var ready := Snapshot(nodes);
    DistinctNodes(nodes, a.id, b.id);
    AddSound(ready, a.id, b.id);
    a.AddOutbound(b.id);
    b.connections := b.connections + [a.id];
    assert Snapshot(nodes) == Add(ready, a.id, b.id);
  }

  lemma FreedSpreads(net: Net, a: Id, b: Id, mid: Net)
    requires Sound(net) && a in net && b in net && a != b && b !in net[a].conns && a !in net[b].conns
    requires Freed(net, a, b, mid)
    ensures Sound(mid) && a in mid && b in mid && mid[b] == net[b] && b !in mid[a].conns
    ensures !RoomTotal(net, a) ==> Crowd(a, mid[a].conns + [b]) < Crowd(a, net[a].conns)
    ensures forall s :: Peers(a, net[a].conns, s) > 0 ==> Peers(a, mid[a].conns + [b], s) > 0
  {
    hide Crowd, Peers, Without, IsVictim, Sound, Distinct, Members;
    SoundNode(net, a);
    if RoomTotal(net, a) {
      MorePeers(a, net[a].conns, b);
    } else {
      var v :| v in net && v != a && IsVictim(a, net[a].conns, b, v) && mid == Drop(net, a, v);
      VictimDropped(net, a, b, v);
      assert v != b;
      AfterSwap(net, a, v, b);
      SwapSpreads(a, net[a].conns, b, v);
    }
  }

  lemma MorePeers(self: Id, conns: seq<Id>, e: Id)
    requires Distinct(conns) && e !in conns
    ensures forall s :: Peers(self, conns, s) > 0 ==> Peers(self, conns + [e], s) > 0
  {
    hide Count;
    Appended(conns, e);
    InMembers(conns, e);
    forall s | Peers(self, conns, s) > 0 ensures Peers(self, conns + [e], s) > 0 {
      CountWith(StrataOf(self), Members(conns), e, s);
    }
  }

  lemma NotLinkedBack(net: Net, a: Id, b: Id)
    requires Sound(net) && a in net && b in net && b !in net[a].conns
    ensures a !in net[b].conns
  {
    assert LinkOk(net, b, a);
  }

  /** A swap and the link that follows it spread the swapping node's peers strictly better and empty none of its strata. */
  lemma JoinedSpreads(net: Net, a: Id, b: Id, after: Net)
    requires Sound(net) && a in net && b in net && a != b && b !in net[a].conns
    requires Joined(net, a, b, after)
    ensures a in after && b in after
    ensures !RoomTotal(net, a) ==> Crowd(a, after[a].conns) < Crowd(a, net[a].conns)
    ensures !RoomTotal(net, b) ==> Crowd(b, after[b].conns) < Crowd(b, net[b].conns)
    ensures forall s :: Peers(a, net[a].conns, s) > 0 ==> Peers(a, after[a].conns, s) > 0
    ensures forall s :: Peers(b, net[b].conns, s) > 0 ==> Peers(b, after[b].conns, s) > 0
  {
    hide Crowd, Peers, Sound, Freed;
    NotLinkedBack(net, a, b);
    var mid, ready :| Freed(net, a, b, mid) && b in mid && Freed(mid, b, a, ready) && after == Add(ready, a, b);
    FreedSpreads(net, a, b, mid);
    FreedSpreads(mid, b, a, ready);
  }

  lemma FreedIff(net: Net, a: Id, b: Id)
    requires Sound(net) && a in net
    ensures (exists mid :: Freed(net, a, b, mid)) <==> RoomTotal(net, a) || CanSwap(a, net[a].conns, b)
  {
    hide Sound, IsVictim, CanSwap;
    VictimExistsIff(a, net[a].conns, b);
    if RoomTotal(net, a) {
      assert Freed(net, a, b, net);
    } else if CanSwap(a, net[a].conns, b) {
      var v :| IsVictim(a, net[a].conns, b, v);
      VictimDropped(net, a, b, v);
      assert Freed(net, a, b, Drop(net, a, v));
    }
  }

  /** What `tryConnect` asks for: room at both directional caps as they stand, and at both ends a free slot or one a swap frees. */
  lemma ConnectsIff(net: Net, a: Id, b: Id)
    requires Sound(net) && a in net && b in net && a != b && b !in net[a].conns
    ensures Connects(net, a, b) <==>
            && (net[a].limits.outgoing.AtMost? ==> |net[a].out| < net[a].limits.outgoing.n)
            && (net[b].limits.incoming.AtMost? ==> |net[b].conns| - |net[b].out| < net[b].limits.incoming.n)
            && (exists mid :: Freed(net, a, b, mid)) && (exists ready :: Freed(net, b, a, ready))
    ensures HalfSwapped(net, a, b) <==>
            && (net[a].limits.outgoing.AtMost? ==> |net[a].out| < net[a].limits.outgoing.n)
            && (net[b].limits.incoming.AtMost? ==> |net[b].conns| - |net[b].out| < net[b].limits.incoming.n)
            && (exists mid :: Freed(net, a, b, mid)) && !Freed(net, a, b, net) && !exists ready :: Freed(net, b, a, ready)
  {
    hide Sound, CanSwap, Freed;
    FreedIff(net, a, b);
    FreedIff(net, b, a);
    FreedItself(net, a, b);
  }

  lemma FreedItself(net: Net, a: Id, b: Id)
    requires Sound(net) && a in net && b in net && a != b && b !in net[a].conns
    ensures Freed(net, a, b, net) <==> RoomTotal(net, a)
  {
    hide Sound, IsVictim;
    if Freed(net, a, b, net) && !RoomTotal(net, a) {
      var v :| v in net && v != a && IsVictim(a, net[a].conns, b, v) && net == Drop(net, a, v);
      VictimDropped(net, a, b, v);
      SoundNode(net, a);
      WithoutFacts(net[a].conns, v);
    }
  }

  // ---- a refused link that costs a peer ----

  function Free(conns: seq<Id>): Links {
    Links(conns, {}, Limits(Unlimited, Unlimited, Unlimited))
  }

  function Capped(conns: seq<Id>, out: set<Id>, n: nat): Links {
    Links(conns, out, Limits(AtMost(n), Unlimited, Unlimited))
  }

  /** Node 0 is full with both peers in one stratum; node 1 is full with a single peer. */
  function CrowdedNet(): Net {
    map[0 := Capped([4, 5], {4, 5}, 2), 1 := Capped([8], {8}, 1), 4 := Free([0]), 5 := Free([0]), 8 := Free([1])]
  }

  lemma CrowdedNodes()
    ensures forall a :: a in CrowdedNet() ==> NodeOk(CrowdedNet(), a)
  {
    var net := CrowdedNet();
    assert NodeOk(net, 0) by { assert Members([4, 5]) == {4, 5}; }
    assert NodeOk(net, 1) by { assert Members([8]) == {8}; }
    assert NodeOk(net, 4) && NodeOk(net, 5) && NodeOk(net, 8) by { hide Members; }
    hide NodeOk;
  }

  lemma CrowdedLinks()
    ensures forall a, b :: a in CrowdedNet() ==> LinkOk(CrowdedNet(), a, b)
  {
  }

  lemma OnlyStratum(self: Id, conns: seq<Id>, s: nat)
    requires Distinct(conns) && forall e :: e in conns ==> StratumOf(self, e) == s
    ensures forall r :: Peers(self, conns, r) == if r == s then |conns| else 0
  {
    hide StratumOf;
    forall r ensures Peers(self, conns, r) == if r == s then |conns| else 0 {
      if r == s {
        assert InClass(StrataOf(self), Members(conns), r) == Members(conns);
        MembersCount(conns);
      } else {
        assert InClass(StrataOf(self), Members(conns), r) == {};
      }
    }
  }

  lemma CrowdedSides()
    ensures Crowded(0, [4, 5], 1, 261) && forall s :: !Crowded(1, [8], 0, s)
  {
    CrowdedStrata();
    hide Peers, StratumOf;
    OnlyStratum(0, [4, 5], 261);
    OnlyStratum(1, [8], 260);
  }

  lemma CrowdedStrata()
    ensures StratumOf(0, 4) == StratumOf(0, 5) == 261 && StratumOf(0, 1) == 263 && StratumOf(1, 8) == 260
  {
  }

  /** A refused `tryConnect` does cost the caller a peer: this network is sound and meets the exact condition. */
  lemma RefusedLinkCostsPeer()
    ensures Sound(CrowdedNet()) && HalfSwapped(CrowdedNet(), 0, 1)
  {
    hide NodeOk, LinkOk, Crowded;
    CrowdedNodes();
    CrowdedLinks();
    CrowdedSides();
  }
}
