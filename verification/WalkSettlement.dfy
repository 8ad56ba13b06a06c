/** The originator's side of acknowledged walks: every lookup it started settles exactly once. */
module WalkSettlement {

  import opened KeySpace
  import opened LookupWalk

  type WalkId = nat

  /** What a lookup resolves with. */
  datatype WalkResult = WalkResult(reason: Reason, path: seq<Id>)

  /** What can happen to the originator's walks, in any order. */
  datatype Event =
    | Start                           // a lookup begins; its walk id is the next number
    | Result(walkId: WalkId, r: WalkResult)    // the first step's own result, or a result handed back
    | Deadline(walkId: WalkId, r: WalkResult)  // the walk's timer
    | Stop(r: WalkResult)                      // the node stops or leaves

  /** Started walks by number, those still pending, and every settlement in order. */
  datatype State = State(started: nat, pending: set<WalkId>, settled: seq<Settlement>)
  datatype Settlement = Settlement(walkId: WalkId, r: WalkResult)

  function Unstarted(): State {
    State(0, {}, [])
  }

  ghost predicate Settles(s: State, e: Event, walkId: WalkId) {
    walkId in s.pending &&
    match e
    case Start => false
    case Result(w, _) => w == walkId
    case Deadline(w, _) => w == walkId
    case Stop(_) => true
  }

  /** One event: what it does to the pending walks, and which settlements it adds. */
  ghost predicate Next(s: State, e: Event, t: State) {
    && t.started == s.started + (if e.Start? then 1 else 0)
    && (forall w :: w in t.pending <==> (w in s.pending && !Settles(s, e, w)) || (e.Start? && w == s.started))
    && s.settled <= t.settled
    && (forall i :: |s.settled| <= i < |t.settled| ==>
          !e.Start? && Settles(s, e, t.settled[i].walkId) && t.settled[i].r == e.r)
    && (forall w :: Settles(s, e, w) ==> exists i :: |s.settled| <= i < |t.settled| && t.settled[i].walkId == w)
    && (forall i, j :: |s.settled| <= i < j < |t.settled| ==> t.settled[i].walkId != t.settled[j].walkId)
  }

  /** A walk is pending or settled, never both, and settled at most once. */
  ghost predicate Consistent(s: State) {
    && (forall w :: w in s.pending ==> w < s.started)
    && (forall i :: 0 <= i < |s.settled| ==> s.settled[i].walkId < s.started && s.settled[i].walkId !in s.pending)
    && (forall w :: 0 <= w < s.started ==> w in s.pending || SettledIn(s, w))
    && (forall i, j :: 0 <= i < j < |s.settled| ==> s.settled[i].walkId != s.settled[j].walkId)
  }

  ghost predicate SettledIn(s: State, w: WalkId) {
    exists i :: 0 <= i < |s.settled| && s.settled[i].walkId == w
  }

  lemma NextKeepsConsistent(s: State, e: Event, t: State)
    requires Consistent(s) && Next(s, e, t)
    ensures Consistent(t)
  {
    forall i, j | 0 <= i < j < |t.settled| ensures t.settled[i].walkId != t.settled[j].walkId {
      if i < |s.settled| {
        assert t.settled[i] == s.settled[i];
      }
    }
    forall i | 0 <= i < |t.settled| ensures t.settled[i].walkId < t.started && t.settled[i].walkId !in t.pending {
      if i < |s.settled| {
        assert t.settled[i] == s.settled[i];
      }
    }
    forall w | 0 <= w < t.started ensures w in t.pending || SettledIn(t, w) {
      if w < s.started && w !in s.pending {
        var i :| 0 <= i < |s.settled| && s.settled[i].walkId == w;
        assert t.settled[i] == s.settled[i];
      }
    }
  }

  /** The originator's pending table, with every promise it has resolved. */
  class Originator {
    var walkSeq: nat
    var pending: set<WalkId>
    ghost var settled: seq<Settlement>

    ghost function Now(): State
      reads this
    {
      State(walkSeq, pending, settled)
    }

    constructor ()
      ensures Now() == Unstarted() && Consistent(Now())
    {
      walkSeq, pending, settled := 0, {}, [];
    }

    /** The entry is registered before the first step runs. */
    method Begin() returns (walkId: WalkId)
      requires Consistent(Now())
      modifies this
      ensures Next(old(Now()), Start, Now()) && Consistent(Now())
      ensures walkId == old(walkSeq) && walkId in pending
    {
      walkId := walkSeq;
      walkSeq := walkSeq + 1;
      pending := pending + {walkId};
      NextKeepsConsistent(old(Now()), Start, Now());
    }

    /** `finish`: clears the timer, drops the entry, resolves the promise. */
    method Finish(walkId: WalkId, r: WalkResult)
      requires walkId in pending
      modifies this`pending, this`settled
      ensures pending == old(pending) - {walkId}
      ensures settled == old(settled) + [Settlement(walkId, r)]
    {
      pending := pending - {walkId};
      settled := settled + [Settlement(walkId, r)];
    }

    /** A result from the first step or from `lookup_done`; for a walk no longer pending it is dropped. */
    method Done(walkId: WalkId, r: WalkResult)
      requires Consistent(Now())
      modifies this
      ensures Next(old(Now()), Result(walkId, r), Now()) && Consistent(Now())
      ensures old(walkId !in pending) ==> Now() == old(Now())
    {
      if walkId in pending {
        Finish(walkId, r);
      }
      assert Settles(old(Now()), Result(walkId, r), walkId) ==> settled[|old(settled)|].walkId == walkId;
      NextKeepsConsistent(old(Now()), Result(walkId, r), Now());
    }

    method DeadlinePassed(walkId: WalkId, r: WalkResult)
      requires Consistent(Now())
      modifies this
      ensures Next(old(Now()), Deadline(walkId, r), Now()) && Consistent(Now())
      ensures walkId !in pending
    {
      if walkId in pending {
        pending := pending - {walkId};
        settled := settled + [Settlement(walkId, r)];
      }
      assert Settles(old(Now()), Deadline(walkId, r), walkId) ==> settled[|old(settled)|].walkId == walkId;
      NextKeepsConsistent(old(Now()), Deadline(walkId, r), Now());
    }

    /** `_settleWalksPending`: every pending walk is finished, one after another. */
    method SettlePending(r: WalkResult)
      requires Consistent(Now())
      modifies this
      ensures Next(old(Now()), Stop(r), Now()) && Consistent(Now())
      ensures pending == {}
    {
      var all := pending;
      while all != {}
        invariant all == pending <= old(pending) && walkSeq == old(walkSeq)
        invariant old(settled) <= settled
        invariant forall i :: |old(settled)| <= i < |settled| ==>
                    settled[i].walkId in old(pending) && settled[i].walkId !in pending && settled[i].r == r
        invariant forall w :: w in old(pending) && w !in pending ==>
                    exists i :: |old(settled)| <= i < |settled| && settled[i].walkId == w
        invariant forall i, j :: |old(settled)| <= i < j < |settled| ==> settled[i].walkId != settled[j].walkId
        decreases |all|
      {
        var walkId :| walkId in all;
        ghost var before := settled;
        Finish(walkId, r);
        all := all - {walkId};
        assert settled[|before|].walkId == walkId;
        forall w | w in old(pending) && w !in pending
          ensures exists i :: |old(settled)| <= i < |settled| && settled[i].walkId == w
        {
          if w != walkId {
            var i :| |old(settled)| <= i < |before| && before[i].walkId == w;
            assert settled[i] == before[i];
          }
        }
      }
      pending := {};
      NextKeepsConsistent(old(Now()), Stop(r), Now());
    }
  }

  // ---- runs ----

  ghost predicate Run(states: seq<State>, events: seq<Event>) {
    && |states| == |events| + 1
    && states[0] == Unstarted()
    && forall i :: 0 <= i < |events| ==> Moves(states, events, i)
  }

  ghost predicate Moves(states: seq<State>, events: seq<Event>, i: nat)
    requires i < |events| && |states| == |events| + 1
  {
    Next(states[i], events[i], states[i + 1])
  }

  lemma {:induction false} RunConsistent(states: seq<State>, events: seq<Event>, i: nat)
    requires Run(states, events) && i <= |events|
    ensures Consistent(states[i])
  {
    if i > 0 {
      RunConsistent(states, events, i - 1);
      assert Moves(states, events, i - 1);
      NextKeepsConsistent(states[i - 1], events[i - 1], states[i]);
    }
  }

  /** A settlement stays as it is for the rest of the run. */
  lemma {:induction false} SettledForGood(states: seq<State>, events: seq<Event>, i: nat, j: nat)
    requires Run(states, events) && i <= j <= |events|
    ensures states[i].settled <= states[j].settled && states[i].started <= states[j].started
    decreases j - i
  {
    hide Next;
    if i < j {
      SettledForGood(states, events, i, j - 1);
      assert Moves(states, events, j - 1);
      NextGrows(states[j - 1], events[j - 1], states[j]);
    }
  }

  lemma NextGrows(s: State, e: Event, t: State)
    requires Next(s, e, t)
    ensures s.settled <= t.settled && s.started <= t.started
  {
  }

  /** The event is one that ends the walk when it is pending. */
  predicate Ends(e: Event, walkId: WalkId) {
    match e
    case Start => false
    case Result(w, _) => w == walkId
    case Deadline(w, _) => w == walkId
    case Stop(_) => true
  }

  /** Until the first event that ends it, a started walk stays pending. */
  lemma {:induction false} StaysPending(states: seq<State>, events: seq<Event>, w: WalkId, i: nat, j: nat)
    requires Run(states, events) && i <= j <= |events| && w in states[i].pending
    requires forall k :: i <= k < j ==> !Ends(events[k], w)
    ensures w in states[j].pending
    decreases j - i
  {
    if i < j {
      StaysPending(states, events, w, i, j - 1);
      assert Moves(states, events, j - 1);
    }
  }

  /** Every walk started and then ended by some event is settled exactly once, with what the first such event brought. */
  lemma SettlesOnceByFirst(states: seq<State>, events: seq<Event>, w: WalkId, i: nat, j: nat)
    requires Run(states, events) && i <= j < |events|
    requires w in states[i].pending && Ends(events[j], w)
    requires forall k :: i <= k < j ==> !Ends(events[k], w)
    ensures var all := states[|events|].settled;
            exists n :: 0 <= n < |all| && all[n] == Settlement(w, events[j].r) &&
                        forall m :: 0 <= m < |all| && all[m].walkId == w ==> m == n
  {
    StaysPending(states, events, w, i, j);
    assert Moves(states, events, j);
    assert Settles(states[j], events[j], w);
    var n :| |states[j].settled| <= n < |states[j + 1].settled| && states[j + 1].settled[n].walkId == w;
    SettledForGood(states, events, j + 1, |events|);
    RunConsistent(states, events, |events|);
    assert states[|events|].settled[n] == states[j + 1].settled[n];
  }

  /** After a stop nothing is pending, and every walk ever started has settled. */
  lemma StopSettlesAll(states: seq<State>, events: seq<Event>, j: nat, w: WalkId)
    requires Run(states, events) && j < |events| && events[j].Stop?
    ensures w !in states[j + 1].pending
    ensures w < states[j + 1].started ==> SettledIn(states[j + 1], w)
  {
    assert Moves(states, events, j);
    RunConsistent(states, events, j + 1);
    assert Settles(states[j], events[j], w) <==> w in states[j].pending;
  }
}
