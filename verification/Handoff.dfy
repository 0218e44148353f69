/**
  Dispatcher and workers over an unbuffered channel of channels, once that channel exists
  (cmd/dhtsearch/main.go, bt/worker.go). Each send or receive is half of a rendezvous, so
  the protocol is a state machine whose steps move two parties at once.
 */
module Handoff {

  /** Peers are compared by identity only, so any type will do. */
  datatype WorkerState<P> =
    | Offering               // blocked on `pool <- peerCh`
    | Waiting                // blocked on `<-peerCh`
    | Fetching(peer: P)

  datatype Dispatcher<P> =
    | Polling                          // asking the store for pending peers
    | Choosing(batch: seq<P>)          // blocked on `<-pool` for the first of the batch
    | Holding(w: nat, batch: seq<P>)   // blocked on `w <- p` with the first of the batch

  /** `received` logs which worker got which peer, in order. */
  datatype System<P> = System(
    dispatcher: Dispatcher<P>,
    workers: seq<WorkerState<P>>,
    received: seq<(nat, P)>)

  datatype Event<P> =
    | Poll(peers: seq<P>)    // the store returned these, possibly none after an error
    | Offer(w: nat)          // rendezvous of `pool <- peerCh` and `<-pool`
    | Deliver                // rendezvous of `w <- p` and `<-peerCh`
    | Finish(w: nat)         // a fetch ends, well or badly

  function Start<P>(n: nat): (s: System<P>) {
    System(Polling, seq(n, _ => Offering), [])
  }

  /** The dispatcher's next wait, given what is left of its batch. */
  function Next<P>(batch: seq<P>): (d: Dispatcher<P>) {
    if |batch| == 0 then Polling else Choosing(batch)
  }

  predicate Enabled<P>(s: System<P>, e: Event<P>) {
    match e
    case Poll(_) => s.dispatcher.Polling?
    case Offer(w) => s.dispatcher.Choosing? && w < |s.workers| && s.workers[w].Offering?
    case Deliver =>
      && s.dispatcher.Holding? && |s.dispatcher.batch| > 0
      && s.dispatcher.w < |s.workers| && s.workers[s.dispatcher.w].Waiting?
    case Finish(w) => w < |s.workers| && s.workers[w].Fetching?
  }

  function Step<P>(s: System<P>, e: Event<P>): (r: System<P>)
    requires Enabled(s, e)
  {
    match e
    case Poll(peers) => s.(dispatcher := Next(peers))
    case Offer(w) =>
      s.(dispatcher := Holding(w, s.dispatcher.batch), workers := s.workers[w := Waiting])
    case Deliver =>
      var w, p := s.dispatcher.w, s.dispatcher.batch[0];
      s.(dispatcher := Next(s.dispatcher.batch[1..]),
         workers := s.workers[w := Fetching(p)],
         received := s.received + [(w, p)])
    case Finish(w) => s.(workers := s.workers[w := Offering])
  }

  /** A run from the start: every event is enabled in the state it happens in. */
  ghost predicate IsRun<P>(n: nat, states: seq<System<P>>, events: seq<Event<P>>) {
    && |states| == |events| + 1 && states[0] == Start(n)
    && forall k :: 0 <= k < |events| ==> Enabled(states[k], events[k]) && states[k + 1] == Step(states[k], events[k])
  }

  /** Everything the dispatcher still has to hand out. */
  function Pending<P>(d: Dispatcher<P>): (ps: seq<P>) {
    if d.Polling? then [] else d.batch
  }

  ghost predicate Inv<P>(n: nat, s: System<P>) {
    && |s.workers| == n
    && (s.dispatcher.Holding? ==> s.dispatcher.w < n)
    && (!s.dispatcher.Polling? ==> |s.dispatcher.batch| > 0)
    && (forall w :: 0 <= w < n ==>
          (s.workers[w].Waiting? <==> s.dispatcher.Holding? && s.dispatcher.w == w))
    && forall k :: 0 <= k < |s.received| ==> s.received[k].0 < n
  }

  lemma StepKeepsInv<P>(n: nat, s: System<P>, e: Event<P>)
    requires Inv(n, s) && Enabled(s, e)
    ensures Inv(n, Step(s, e))
  {
  }

  /**
    In every reachable state the worker count is the initial one, and the dispatcher holds
    a worker's channel exactly when that worker waits on it; so at most one worker waits.
   */
  lemma {:induction false} ReachableInv<P>(n: nat, states: seq<System<P>>, events: seq<Event<P>>, k: nat)
    requires IsRun(n, states, events) && k < |states|
    ensures Inv(n, states[k])
    ensures forall v, w ::
              (0 <= v < n && 0 <= w < n && states[k].workers[v].Waiting? && states[k].workers[w].Waiting?)
              ==> v == w
  {
    if k > 0 {
      ReachableInv(n, states, events, k - 1);
      StepKeepsInv(n, states[k - 1], events[k - 1]);
    }
  }

  // ---------- every peer is received once ----------

  /** The peers the store handed over, in order. */
  function Polled<P>(events: seq<Event<P>>): (ps: seq<P>) {
    if |events| == 0 then [] else
      var e := events[|events| - 1];
      Polled(events[..|events| - 1]) + if e.Poll? then e.peers else []
  }

  function Peers<P>(received: seq<(nat, P)>): (ps: seq<P>)
    ensures |ps| == |received|
  {
    seq(|received|, k requires 0 <= k < |received| => received[k].1)
  }

  lemma StepConserves<P>(s: System<P>, e: Event<P>)
    requires Enabled(s, e)
    ensures Peers(Step(s, e).received) + Pending(Step(s, e).dispatcher)
            == Peers(s.received) + Pending(s.dispatcher) + if e.Poll? then e.peers else []
  {
    if e.Deliver? {
      var b := s.dispatcher.batch;
      assert b == [b[0]] + b[1..];
    }
  }

  /**
    No peer is lost, duplicated or reordered: what the store handed over is what the
    workers received, one log entry each, followed by what the dispatcher still holds.
   */
  lemma {:induction false} PeersConserved<P>(n: nat, states: seq<System<P>>, events: seq<Event<P>>, k: nat)
    requires IsRun(n, states, events) && k < |states|
    ensures Polled(events[..k]) == Peers(states[k].received) + Pending(states[k].dispatcher)
  {
    if k > 0 {
      PeersConserved(n, states, events, k - 1);
      StepConserves(states[k - 1], events[k - 1]);
      assert events[..k][..k - 1] == events[..k - 1];
    }
  }

  function Receipts<P>(received: seq<(nat, P)>, w: nat): (c: nat) {
    if |received| == 0 then 0 else
      Receipts(received[..|received| - 1], w) + if received[|received| - 1].0 == w then 1 else 0
  }

  function Finishes<P>(events: seq<Event<P>>, w: nat): (c: nat) {
    if |events| == 0 then 0 else
      Finishes(events[..|events| - 1], w) + if events[|events| - 1] == Finish(w) then 1 else 0
  }

  /** The last peer a worker received, if any. */
  function LastReceived<P>(received: seq<(nat, P)>, w: nat): (last: seq<P>) {
    if |received| == 0 then [] else
      var (v, p) := received[|received| - 1];
      if v == w then [p] else LastReceived(received[..|received| - 1], w)
  }

  lemma StepReceives<P>(n: nat, s: System<P>, e: Event<P>, w: nat)
    requires Inv(n, s) && Enabled(s, e) && w < n
    ensures var r := Step(s, e);
            && |r.workers| == n
            && Receipts(r.received, w) + (if s.workers[w].Fetching? then 1 else 0)
               == Receipts(s.received, w) + (if r.workers[w].Fetching? then 1 else 0)
                  + (if e == Finish(w) then 1 else 0)
            && (r.workers[w].Fetching? && r.workers[w] != s.workers[w] ==>
                  LastReceived(r.received, w) == [r.workers[w].peer])
            && (r.workers[w] == s.workers[w] ==> LastReceived(r.received, w) == LastReceived(s.received, w))
  {
    if e.Deliver? {
      var r := Step(s, e).received;
      assert r[..|r| - 1] == s.received;
    }
  }

  /**
    A worker has received one peer more than it has finished exactly while it fetches, and
    what it fetches is the peer it received last.
   */
  lemma {:induction false} OnePeerAtATime<P>(
    n: nat, states: seq<System<P>>, events: seq<Event<P>>, k: nat, w: nat)
    requires IsRun(n, states, events) && k < |states| && w < n
    ensures |states[k].workers| == n
    ensures Receipts(states[k].received, w)
            == Finishes(events[..k], w) + if states[k].workers[w].Fetching? then 1 else 0
    ensures states[k].workers[w].Fetching? ==> LastReceived(states[k].received, w) == [states[k].workers[w].peer]
  {
    ReachableInv(n, states, events, k);
    if k > 0 {
      hide Step, Inv, Enabled;
      OnePeerAtATime(n, states, events, k - 1, w);
      ReachableInv(n, states, events, k - 1);
      var s, e := states[k - 1], events[k - 1];
      assert events[..k][..k - 1] == events[..k - 1];
      assert states[k] == Step(s, e);
      StepReceives(n, s, e, w);
    }
  }

  // ---------- progress ----------

  /** Nobody is kept from the next step it is ready for, and the guards let nobody else take one. */
  lemma ReadyIffEnabled<P>(n: nat, s: System<P>, peers: seq<P>, w: nat)
    requires Inv(n, s) && w < n
    ensures s.dispatcher.Polling? <==> Enabled(s, Poll(peers))
    ensures s.dispatcher.Choosing? && s.workers[w].Offering? <==> Enabled(s, Offer(w))
    ensures s.dispatcher.Holding? <==> Enabled(s, Deliver)
    ensures s.workers[w].Fetching? <==> Enabled(s, Finish(w))
  {
  }

  /**
    No pending peer waits for a fetch while a worker is free: whichever worker it is, the
    handoff can go on without a poll or the end of a fetch, and with that worker's offer if
    the dispatcher is choosing.
   */
  lemma FreeWorkerIsServed<P>(n: nat, s: System<P>, w: nat) returns (e: Event<P>)
    requires Inv(n, s) && w < n && !s.workers[w].Fetching? && !s.dispatcher.Polling?
    ensures Enabled(s, e) && !e.Poll? && !e.Finish?
    ensures s.dispatcher.Choosing? ==> e == Offer(w)
  {
    e := if s.dispatcher.Holding? then Deliver else Offer(w);
  }

  /** With a worker in the system, something other than polling can happen while peers are pending. */
  lemma Progress<P>(n: nat, s: System<P>) returns (e: Event<P>)
    requires n >= 1 && Inv(n, s) && !s.dispatcher.Polling?
    ensures Enabled(s, e) && !e.Poll?
  {
    if s.dispatcher.Holding? {
      e := Deliver;
    } else {
      e := if s.workers[0].Offering? then Offer(0) else Finish(0);
    }
  }

  function Fetches<P>(ws: seq<WorkerState<P>>): (c: nat) {
    if |ws| == 0 then 0 else Fetches(ws[1..]) + if ws[0].Fetching? then 1 else 0
  }

  lemma {:induction false} FetchesUpdate<P>(ws: seq<WorkerState<P>>, w: nat, v: WorkerState<P>)
    requires w < |ws|
    ensures Fetches(ws[w := v])
            == Fetches(ws) - (if ws[w].Fetching? then 1 else 0) + (if v.Fetching? then 1 else 0)
  {
    var us := ws[w := v];
    if w == 0 {
      assert us[1..] == ws[1..];
    } else {
      FetchesUpdate(ws[1..], w - 1, v);
      assert us[1..] == ws[1..][w - 1 := v];
    }
  }

  /** How many steps are left until the batch is handed out and all fetches are over. */
  function Rank<P>(s: System<P>): (r: int) {
    3 * |Pending(s.dispatcher)| - (if s.dispatcher.Holding? then 1 else 0) + Fetches(s.workers)
  }

  lemma StepLowersRank<P>(n: nat, s: System<P>, e: Event<P>)
    requires Inv(n, s) && Enabled(s, e) && !e.Poll?
    ensures Rank(Step(s, e)) == Rank(s) - 1
  {
    match e
    case Offer(w) => FetchesUpdate(s.workers, w, Waiting);
    case Deliver => FetchesUpdate(s.workers, s.dispatcher.w, Fetching(s.dispatcher.batch[0]));
    case Finish(w) => FetchesUpdate(s.workers, w, Offering);
  }

  /**
    Between polls every step lowers the rank by one, whatever the interleaving: after
    exactly Rank steps, and not before, the batch is out and every fetch is over.
   */
  lemma {:induction false} BatchDrains<P>(
    n: nat, states: seq<System<P>>, events: seq<Event<P>>, i: nat, j: nat)
    requires IsRun(n, states, events) && i <= j < |states|
    requires forall k :: i <= k < j ==> !events[k].Poll?
    ensures Rank(states[j]) == Rank(states[i]) - (j - i) >= 0
    ensures Rank(states[j]) == 0 <==>
              && states[j].dispatcher.Polling?
              && forall w :: 0 <= w < |states[j].workers| ==> states[j].workers[w].Offering?
    decreases j - i
  {
    if i < j {
      BatchDrains(n, states, events, i, j - 1);
      ReachableInv(n, states, events, j - 1);
      StepLowersRank(n, states[j - 1], events[j - 1]);
    }
    ReachableInv(n, states, events, j);
    RankZero(n, states[j]);
  }

  lemma RankZero<P>(n: nat, s: System<P>)
    requires Inv(n, s)
    ensures Rank(s) >= 0
    ensures Rank(s) == 0 <==>
              s.dispatcher.Polling? && forall w :: 0 <= w < |s.workers| ==> s.workers[w].Offering?
  {
    NoFetches(s.workers);
  }

  lemma {:induction false} NoFetches<P>(ws: seq<WorkerState<P>>)
    ensures Fetches(ws) == 0 <==> forall w :: 0 <= w < |ws| ==> !ws[w].Fetching?
  {
    if |ws| > 0 {
      NoFetches(ws[1..]);
      assert forall w :: 0 < w < |ws| ==> ws[w] == ws[1..][w - 1];
    }
  }
}
