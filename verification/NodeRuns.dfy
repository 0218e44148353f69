/**
  What holds over every run of the node (dht/node.go), packets being handled at any moment of
  a neighbour round: the table, the replies, the queries of each round, and the panics.
 */
module NodeRuns {
  import opened Bytes
  import opened Results
  import opened Krpc
  import opened Infohash
  import opened Heap
  import opened RT = RoutingTable
  import opened Interleaving
  import opened Node
  import opened NodePackets

  // ---------- neighbour rounds ----------

  function CountTo(qs: seq<Sent>, addr: string): (c: nat) {
    if |qs| == 0 then 0 else
      CountTo(qs[..|qs| - 1], addr) + if qs[|qs| - 1].to == addr then 1 else 0
  }

  lemma CountToSnoc(qs: seq<Sent>, q: Sent, addr: string)
    ensures CountTo(qs + [q], addr) == CountTo(qs, addr) + if q.to == addr then 1 else 0
    ensures CountTo(qs + [], addr) == CountTo(qs, addr)
  {
    assert (qs + [q])[..|qs|] == qs;
    assert qs + [] == qs;
  }

  ghost predicate AllFit(id: seq<Byte>, items: seq<Entry<Remote>>)
    requires IsId(id)
  {
    forall i :: 0 <= i < |items| ==> Fits(id, items[i])
  }

  ghost predicate OneEach(items: seq<Entry<Remote>>) {
    forall i, j :: 0 <= i < j < |items| ==> items[i].value.addr != items[j].value.addr
  }

  /** A find_node query that claims an id, as its recipient reads it. */
  predicate IsFindNode(msg: Fields, claimed: seq<Byte>) {
    && Says(msg, "y", [0x71]) && Says(msg, "q", [0x66, 0x69, 0x6e, 0x64, 0x5f, 0x6e, 0x6f, 0x64, 0x65])
    && HasText(msg, "t") && HasFields(msg, "a")
    && Says(msg["a"].fields, "id", claimed) && HasText(msg["a"].fields, "target")
  }

  lemma FindNodeShape(env: Env, k: nat, claimed: seq<Byte>)
    ensures var q := FindNodeMsg(env, k, claimed);
            && IsFindNode(q, claimed)
            && Says(q, "t", env.random(k).0) && Says(q["a"].fields, "target", env.random(k).1)
  {
  }

  /** The overwritten id is our own exactly for entries at distance 80 or more. */
  lemma SkippedIffNear(id: seq<Byte>, e: Entry<Remote>)
    requires IsId(id) && Fits(id, e)
    ensures NeighbourOf(id, e.value.id) == id <==> e.distance >= 80
  {
    NeighbourDistance(id, e.value.id);
  }

  lemma {:induction false} NoQueryToOthers(env: Env, id: seq<Byte>, items: seq<Entry<Remote>>, addr: string)
    requires IsId(id) && AllFit(id, items)
    requires forall i :: 0 <= i < |items| ==> items[i].value.addr != addr
    ensures CountTo(RoundQueries(env, id, items), addr) == 0
  {
    hide Fits, NeighbourOf, FindNodeMsg;
    if |items| > 0 {
      var k := |items| - 1;
      var rn := items[k].value;
      assert Fits(id, items[k]);
      FitsIsId(id, items);
      NoQueryToOthers(env, id, items[..k], addr);
      CountToSnoc(RoundQueries(env, id, items[..k]),
                  Sent(rn.addr, FindNodeMsg(env, k, NeighbourOf(id, rn.id))), addr);
    }
  }

  lemma FitsIsId(id: seq<Byte>, items: seq<Entry<Remote>>)
    requires IsId(id) && AllFit(id, items)
    ensures forall i :: 0 <= i < |items| ==> IsId(items[i].value.id)
  {
  }

  /** Entry i gets one query, claiming its first ten bytes and our last ten, or none. */
  lemma {:induction false} QueryPerEntry(env: Env, id: seq<Byte>, items: seq<Entry<Remote>>, i: nat)
    requires IsId(id) && AllFit(id, items) && OneEach(items) && i < |items|
    ensures var qs := RoundQueries(env, id, items);
            var rn := items[i].value;
            && CountTo(qs, rn.addr) == (if items[i].distance < 80 then 1 else 0)
            && (items[i].distance < 80 ==> Sent(rn.addr, FindNodeMsg(env, i, rn.id[..10] + id[10..])) in qs)
  {
    hide Fits, FindNodeMsg;
    FitsIsId(id, items);
    var k := |items| - 1;
    var last := items[k].value;
    assert Fits(id, items[k]);
    SkippedIffNear(id, items[k]);
    CountToSnoc(RoundQueries(env, id, items[..k]),
                Sent(last.addr, FindNodeMsg(env, k, NeighbourOf(id, last.id))), items[i].value.addr);
    if i < k {
      QueryPerEntry(env, id, items[..k], i);
      assert items[..k][i] == items[i];
    } else {
      NoQueryToOthers(env, id, items[..k], items[i].value.addr);
    }
  }

  lemma EntriesAreApart(t: Table)
    requires RT.Valid(t)
    ensures OneEach(t.items) && AllFit(t.id, t.items)
  {
    IdsInTable(t);
    forall i, j | 0 <= i < j < |t.items|
      ensures t.items[i].value.addr != t.items[j].value.addr
    {
      SameAddressOnce(t, i, j);
    }
  }

  lemma SameAddressOnce(t: Table, i: nat, j: nat)
    requires InStep(multiset(t.items), t.addresses) && i < j < |t.items|
    ensures t.items[i].value.addr != t.items[j].value.addr
  {
    assert t.items[i] in multiset(t.items) && t.items[j] in multiset(t.items);
    OccursOnce(t.items, i, j);
  }

  lemma OccursOnce<T>(s: seq<T>, i: nat, j: nat)
    requires i < j < |s| && multiset(s)[s[i]] == 1
    ensures s[i] != s[j]
  {
    var left, right := s[..j], s[j..];
    assert s == left + right;
    assert left[i] in multiset(left) && right[0] in multiset(right);
  }

  function FarEntries(items: seq<Entry<Remote>>): (c: nat) {
    if |items| == 0 then 0 else
      FarEntries(items[..|items| - 1]) + if items[|items| - 1].distance < 80 then 1 else 0
  }

  /** And no other query is sent. */
  lemma {:induction false} RoundSendsNoMore(env: Env, id: seq<Byte>, items: seq<Entry<Remote>>)
    requires IsId(id) && AllFit(id, items)
    ensures forall i :: 0 <= i < |items| ==> IsId(items[i].value.id)
    ensures |RoundQueries(env, id, items)| == FarEntries(items)
  {
    hide Fits, FindNodeMsg, NeighbourOf;
    FitsIsId(id, items);
    if |items| > 0 {
      var k := |items| - 1;
      assert Fits(id, items[k]);
      RoundSendsNoMore(env, id, items[..k]);
      SkippedIffNear(id, items[k]);
    }
  }

  // ---------- runs ----------

  /** Where the neighbour loop is: which nodes it took from the table and how many it has asked. */
  datatype Phase =
    | Idle
    | Bootstrapping(next: nat)
    | Asking(nodes: seq<Entry<Remote>>, next: nat)

  datatype System = System(node: State, phase: Phase)

  /** What happens next; the packet reader and the neighbour loop take steps in any order. */
  datatype Event =
    | Packet(sender: string, data: Decoded)
    | Tick                         // the neighbour ticker fires: `isEmpty` and `get(0)`
    | Ask(slot: nat)               // the loop queries its next node, which may still be in a slot
    | EndRound                     // the loop is through and flushes
    | Forget(addrs: set<string>)   // the cache behind the blacklist drops entries
    | WriteError(addr: string)     // the packet writer could not send

  ghost function OnTick(s: System): (r: System)
    ensures r.node == s.node
  {
    if !s.phase.Idle? then s
    else if |s.node.table.items| == 0 then s.(phase := Bootstrapping(0))
    else s.(phase := Asking(s.node.table.items, 0))
  }

  /** If the node asked is still in the given slot, its id there is overwritten. */
  ghost function OnAsk(env: Env, s: System, slot: nat): (r: System)
    requires Ready(s.node)
    ensures Ready(r.node) && r.node.id == s.node.id && r.node.family == s.node.family
  {
    var n := s.node;
    match s.phase
    case Idle => s
    case Bootstrapping(next) =>
      if next >= |env.routers| then s else
        System(n.(out := n.out + [Bootstrap(env, n.id)[next]]), Bootstrapping(next + 1))
    case Asking(nodes, next) =>
      if next >= |nodes| || !IsId(nodes[next].value.id) then s else
        var rn := nodes[next].value;
        var still := slot < |n.table.items| && n.table.items[slot].value == rn;
        System(n.(table := if still then Moved(n.table, Overwrite(slot)) else n.table,
                  out := n.out + QueryTo(env, n.id, next, rn)),
               Asking(nodes, next + 1))
  }

  ghost function OnEndRound(env: Env, s: System): (r: System)
    requires Ready(s.node)
    ensures Ready(r.node) && r.node.id == s.node.id && r.node.family == s.node.family
  {
    match s.phase
    case Idle => s
    case Bootstrapping(next) => if next < |env.routers| then s else s.(phase := Idle)
    case Asking(nodes, next) =>
      if next < |nodes| then s else
        System(s.node.(table := Empty(s.node.table.id, s.node.table.max)), Idle)
  }

  /** An event the loop is not ready for changes nothing; Err stands for a panic. */
  ghost function Step(env: Env, s: System, e: Event): (r: Result<System>)
    requires Ready(s.node)
    ensures r.Ok? ==> Ready(r.value.node)
  {
    match e
    case Packet(sender, data) =>
      var n :- ProcessPacket(env, s.node, sender, data);
      PacketAdds(env, s.node, sender, data);
      Ok(s.(node := n))
    case Tick => Ok(OnTick(s))
    case Ask(slot) => Ok(OnAsk(env, s, slot))
    case EndRound => Ok(OnEndRound(env, s))
    case Forget(addrs) => Ok(s.(node := s.node.(blacklist := s.node.blacklist - addrs)))
    case WriteError(addr) => Ok(s.(node := s.node.(blacklist := s.node.blacklist + {addr})))
  }

  ghost function Run(env: Env, start: System, events: seq<Event>): (r: Result<System>)
    requires Ready(start.node)
    ensures r.Ok? ==> Ready(r.value.node)
  {
    if |events| == 0 then Ok(start) else
      var s :- Run(env, start, events[..|events| - 1]);
      Step(env, s, events[|events| - 1])
  }

  lemma {:induction false} RunSplit(env: Env, start: System, a: seq<Event>, b: seq<Event>)
    requires Ready(start.node)
    ensures Run(env, start, a + b)
            == match Run(env, start, a) case Err => Err case Ok(s) => Run(env, s, b)
  {
    hide Step;
    if |b| == 0 {
      assert a + b == a;
    } else {
      assert (a + b)[..|a + b| - 1] == a + b[..|b| - 1];
      RunSplit(env, start, a, b[..|b| - 1]);
    }
  }

  lemma RunSnoc(env: Env, start: System, events: seq<Event>, e: Event)
    requires Ready(start.node)
    ensures Run(env, start, events + [e])
            == match Run(env, start, events) case Err => Err case Ok(s) => Step(env, s, e)
  {
    assert (events + [e])[..|events|] == events;
  }

  lemma RunOne(env: Env, s: System, e: Event)
    requires Ready(s.node)
    ensures Run(env, s, [e]) == Step(env, s, e)
  {
    hide Step;
    RunSnoc(env, s, [], e);
    assert [] + [e] == [e];
  }

  // ---------- the table ----------

  /** Between rounds the table is valid; within one, overwritten entries may have a wrong distance. */
  ghost predicate Sound(env: Env, s: System) {
    && Ready(s.node)
    && match s.phase
       case Idle => RT.Valid(s.node.table)
       case Bootstrapping(next) => RT.Valid(s.node.table) && next <= |env.routers|
       case Asking(nodes, next) =>
         LooselyValid(s.node.table) && AllFit(s.node.id, nodes) && OneEach(nodes) && next <= |nodes|
  }

  lemma ValidIsLoose(t: Table)
    requires RT.Valid(t)
    ensures LooselyValid(t)
  {
  }

  lemma TickKeeps(env: Env, s: System)
    requires Sound(env, s)
    ensures Sound(env, OnTick(s))
  {
    hide InStep, Ordered, Fits, OneEach;
    if s.phase.Idle? && |s.node.table.items| > 0 {
      ValidIsLoose(s.node.table);
      EntriesAreApart(s.node.table);
    }
  }

  lemma AskKeeps(env: Env, s: System, slot: nat)
    requires Sound(env, s)
    ensures Sound(env, OnAsk(env, s, slot))
  {
    hide RT.Valid, LooselyValid, AllFit, OneEach, Moved, QueryTo;
    if s.phase.Asking? {
      MoveKeepsLoose(s.node.table, Overwrite(slot));
    }
  }

  lemma EndRoundKeeps(env: Env, s: System)
    requires Sound(env, s)
    ensures Sound(env, OnEndRound(env, s))
  {
    hide LooselyValid, AllFit, OneEach;
    EmptyValid(s.node.table.id, s.node.table.max);
  }

  lemma EmptyValid(id: seq<Byte>, max: int)
    requires IsId(id) && max >= 1
    ensures RT.Valid(Empty(id, max))
  {
  }

  lemma PacketKeeps(env: Env, s: System, sender: string, data: Decoded)
    requires Sound(env, s) && ProcessPacket(env, s.node, sender, data).Ok?
    ensures Sound(env, s.(node := ProcessPacket(env, s.node, sender, data).value))
  {
    hide InStep, Ordered, Fits, Loose, AddAll, ProcessPacket, OneEach, Added;
    var rns := Added(env, s.node, sender, data);
    PacketAdds(env, s.node, sender, data);
    if s.phase.Asking? {
      AddAllLoose(s.node.table, rns);
    } else {
      AddAllValid(s.node.table, rns);
    }
  }

  lemma StepKeeps(env: Env, s: System, e: Event)
    requires Sound(env, s)
    ensures var r := Step(env, s, e);
            r.Ok? ==> Sound(env, r.value) && r.value.node.id == s.node.id && r.value.node.family == s.node.family
  {
    hide RT.Valid, LooselyValid, AllFit, OneEach, ProcessPacket, OnTick, OnAsk, OnEndRound;
    match e
    case Packet(sender, data) =>
      if ProcessPacket(env, s.node, sender, data).Ok? {
        PacketAdds(env, s.node, sender, data);
        PacketKeeps(env, s, sender, data);
      }
    case Tick => TickKeeps(env, s);
    case Ask(slot) => AskKeeps(env, s, slot);
    case EndRound => EndRoundKeeps(env, s);
    case Forget(_) =>
    case WriteError(_) =>
  }

  /** The table invariant of its phase survives every event of every run, and the node keeps its id. */
  lemma {:induction false} RunKeepsTable(env: Env, start: System, events: seq<Event>)
    requires Sound(env, start) && Run(env, start, events).Ok?
    ensures var s := Run(env, start, events).value;
            Sound(env, s) && s.node.id == start.node.id && s.node.family == start.node.family
  {
    hide Sound, Step;
    if |events| > 0 {
      SoundIsReady(env, start);
      var front := events[..|events| - 1];
      RunKeepsTable(env, start, front);
      StepKeeps(env, Run(env, start, front).value, events[|events| - 1]);
    }
  }

  lemma SoundIsReady(env: Env, s: System)
    requires Sound(env, s)
    ensures Ready(s.node)
  {
  }

  /** A new node has an empty table and bootstraps before its first round. */
  ghost function NewSystem(env: Env, id: seq<Byte>, family: Family, max: int): (s: System) {
    System(State(id, family, Empty(id, max), {}, []), Bootstrapping(0))
  }

  lemma NewSystemIsSound(env: Env, id: seq<Byte>, family: Family, max: int)
    requires IsId(id) && max >= 1
    ensures Sound(env, NewSystem(env, id, family, max))
  {
    EmptyValid(id, max);
  }

  // ---------- panics ----------

  /** Event k of a run is a packet that brings the node down in the state it meets. */
  ghost predicate CrashesAt(env: Env, start: System, events: seq<Event>, k: nat)
    requires Ready(start.node) && k < |events|
  {
    && Run(env, start, events[..k]).Ok? && events[k].Packet?
    && Crashing(Run(env, start, events[..k]).value.node, events[k].sender, events[k].data)
  }

  lemma StepCrashesIff(env: Env, s: System, e: Event)
    requires Ready(s.node)
    ensures Step(env, s, e).Err? <==> e.Packet? && Crashing(s.node, e.sender, e.data)
  {
    hide ProcessPacket, Crashing;
    if e.Packet? {
      PacketCrashesIff(env, s.node, e.sender, e.data);
    }
  }

  /** A run goes on for ever unless such a packet arrives; nothing else stops it. */
  lemma {:induction false} RunCrashesIff(env: Env, start: System, events: seq<Event>)
    requires Ready(start.node)
    ensures Run(env, start, events).Err? <==> exists k :: 0 <= k < |events| && CrashesAt(env, start, events, k)
  {
    hide Step, Crashing;
    if |events| > 0 {
      var last := |events| - 1;
      var front := events[..last];
      RunCrashesIff(env, start, front);
      forall k | 0 <= k < last
        ensures CrashesAt(env, start, events, k) <==> CrashesAt(env, start, front, k)
      {
        assert events[..k] == front[..k];
      }
      if Run(env, start, front).Ok? {
        StepCrashesIff(env, Run(env, start, front).value, events[last]);
        assert CrashesAt(env, start, events, last) <==> Run(env, start, events).Err?;
      } else {
        var k :| 0 <= k < |front| && CrashesAt(env, start, front, k);
        assert CrashesAt(env, start, events, k);
      }
    }
  }

  // ---------- replies and queries ----------

  /** The messages among some that are replies, or those that are queries. */
  function Select(out: seq<Sent>, replies: bool): (r: seq<Sent>) {
    if |out| == 0 then [] else
      Select(out[..|out| - 1], replies) + if IsReply(out[|out| - 1]) == replies then [out[|out| - 1]] else []
  }

  lemma {:induction false} SelectConcat(a: seq<Sent>, b: seq<Sent>, replies: bool)
    ensures Select(a + b, replies) == Select(a, replies) + Select(b, replies)
  {
    if |b| == 0 {
      assert a + b == a;
    } else {
      assert (a + b)[..|a + b| - 1] == a + b[..|b| - 1];
      SelectConcat(a, b[..|b| - 1], replies);
    }
  }

  lemma {:induction false} SelectAllOrNone(out: seq<Sent>, kind: bool, replies: bool)
    requires forall i :: 0 <= i < |out| ==> IsReply(out[i]) == kind
    ensures Select(out, replies) == if kind == replies then out else []
  {
    if |out| > 0 {
      SelectAllOrNone(out[..|out| - 1], kind, replies);
    }
  }

  /** What one event queues: the reply due for a packet, or one query of the neighbour loop. */
  ghost function Queued(env: Env, s: System, e: Event): (qs: seq<Sent>)
    requires Ready(s.node)
  {
    match e
    case Packet(sender, data) => Due(s.node, sender, data)
    case Ask(_) =>
      (match s.phase
       case Idle => []
       case Bootstrapping(next) =>
         if next < |env.routers| then [Bootstrap(env, s.node.id)[next]] else []
       case Asking(nodes, next) =>
         if next < |nodes| && IsId(nodes[next].value.id) then QueryTo(env, s.node.id, next, nodes[next].value)
         else [])
    case _ => []
  }

  lemma StepQueues(env: Env, s: System, e: Event)
    requires Ready(s.node) && Step(env, s, e).Ok?
    ensures Step(env, s, e).value.node.out == s.node.out + Queued(env, s, e)
    ensures forall i :: 0 <= i < |Queued(env, s, e)| ==> IsReply(Queued(env, s, e)[i]) == e.Packet?
  {
    hide ProcessPacket, Due, NeighbourOf, Moved;
    assert s.node.out + [] == s.node.out;
    if e.Packet? {
      PacketQueuesDue(env, s.node, e.sender, e.data);
      DueAreReplies(s.node, e.sender, e.data);
    }
  }

  lemma StepSelects(env: Env, s: System, e: Event, replies: bool)
    requires Ready(s.node) && Step(env, s, e).Ok?
    ensures Select(Step(env, s, e).value.node.out, replies)
            == Select(s.node.out, replies) + if e.Packet? == replies then Queued(env, s, e) else []
  {
    hide Step, Queued;
    StepQueues(env, s, e);
    SelectConcat(s.node.out, Queued(env, s, e), replies);
    SelectAllOrNone(Queued(env, s, e), e.Packet?, replies);
  }

  /** What is due for each packet of a run, in the state it meets. */
  ghost function DueLog(env: Env, start: System, events: seq<Event>): (r: seq<Sent>)
    requires Ready(start.node)
  {
    if |events| == 0 then [] else
      var front, last := events[..|events| - 1], events[|events| - 1];
      DueLog(env, start, front)
      + if Run(env, start, front).Ok? && last.Packet?
        then Due(Run(env, start, front).value.node, last.sender, last.data) else []
  }

  /**
    Over every run the replies queued are those due, in packet order and at most one per
    packet, whatever the neighbour loop does meanwhile; blacklisted senders, our own id,
    responses and errors are due none.
   */
  lemma {:induction false} RepliesFollowPackets(env: Env, start: System, events: seq<Event>)
    requires Ready(start.node) && Run(env, start, events).Ok?
    ensures Select(Run(env, start, events).value.node.out, true)
            == Select(start.node.out, true) + DueLog(env, start, events)
  {
    hide Step, Due;
    if |events| > 0 {
      var front := events[..|events| - 1];
      var s, e := Run(env, start, front).value, events[|events| - 1];
      RepliesFollowPackets(env, start, front);
      StepSelects(env, s, e, true);
      assert e.Packet? ==> Queued(env, s, e) == Due(s.node, e.sender, e.data);
    }
  }

  // ---------- rounds beside packets ----------

  ghost predicate NoEnd(events: seq<Event>) {
    forall i :: 0 <= i < |events| ==> !events[i].EndRound?
  }

  /** The state of a round: which queries are out, and what is left. */
  ghost predicate InRound(env: Env, start: System, s: System)
    requires IsId(start.node.id) && AllFit(start.node.id, start.node.table.items)
  {
    var items := start.node.table.items;
    && s.node.id == start.node.id && s.node.table.max == start.node.table.max
    && s.phase.Asking? && s.phase.nodes == items && s.phase.next <= |items|
    && Select(s.node.out, false)
       == Select(start.node.out, false) + RoundQueries(env, start.node.id, items[..s.phase.next])
  }

  lemma RoundStep(env: Env, start: System, s: System, e: Event)
    requires Ready(start.node) && AllFit(start.node.id, start.node.table.items)
    requires Ready(s.node) && InRound(env, start, s) && !e.EndRound? && Step(env, s, e).Ok?
    ensures InRound(env, start, Step(env, s, e).value)
  {
    hide Fits, Due, ProcessPacket, Added, Moved, QueryTo, FindNodeMsg;
    var r := Step(env, s, e).value;
    var items, next := start.node.table.items, s.phase.next;
    StepSelects(env, s, e, false);
    if e.Packet? {
      PacketAdds(env, s.node, e.sender, e.data);
    }
    if e.Ask? && next < |items| {
      FitsIsId(start.node.id, items);
      assert items[..next + 1][..next] == items[..next];
    }
  }

  lemma {:induction false} RoundSoFar(env: Env, start: System, mid: seq<Event>)
    requires Sound(env, start) && start.phase.Idle? && |start.node.table.items| > 0
    requires NoEnd(mid) && Run(env, start, [Tick] + mid).Ok?
    ensures Ready(start.node) && AllFit(start.node.id, start.node.table.items)
    ensures InRound(env, start, Run(env, start, [Tick] + mid).value)
  {
    hide InStep, Ordered, Fits, Step, InRound, OneEach;
    EntriesAreApart(start.node.table);
    RunSplit(env, start, [Tick], mid);
    RunOne(env, start, Tick);
    if |mid| == 0 {
      TickStarts(env, start);
    } else {
      var front := mid[..|mid| - 1];
      RunSplit(env, start, [Tick], front);
      assert Run(env, start, [Tick] + front).Ok?;
      RoundSoFar(env, start, front);
      RoundStep(env, start, Run(env, start, [Tick] + front).value, mid[|mid| - 1]);
    }
  }

  lemma TickStarts(env: Env, start: System)
    requires Ready(start.node) && AllFit(start.node.id, start.node.table.items)
    requires start.phase.Idle? && |start.node.table.items| > 0
    ensures InRound(env, start, Step(env, start, Tick).value)
  {
    var items := start.node.table.items;
    assert items[..0] == [] && RoundQueries(env, start.node.id, []) == [];
  }

  lemma RoundEnds(env: Env, start: System, mid: seq<Event>)
    requires Sound(env, start) && start.phase.Idle? && |start.node.table.items| > 0 && NoEnd(mid)
    requires var r := Run(env, start, [Tick] + mid + [EndRound]);
             r.Ok? && r.value.phase.Idle?
    ensures var r, n := Run(env, start, [Tick] + mid + [EndRound]).value.node, start.node;
            && AllFit(n.id, n.table.items)
            && r.table == Empty(n.id, n.table.max)
            && Select(r.out, false) == Select(n.out, false) + RoundQueries(env, n.id, n.table.items)
  {
    hide InStep, Ordered, Fits, OneEach, RoundQueries, Select;
    RunSnoc(env, start, [Tick] + mid, EndRound);
    EntriesAreApart(start.node.table);
    RoundSoFar(env, start, mid);
    var items := start.node.table.items;
    assert items[..|items|] == items;
  }

  /**
    One round, from the ticker to the flush, with packets and other events at any moment in
    between: every node taken from the table whose distance is below 80 gets exactly one
    find_node, which claims the node's first ten bytes and our last ten; the other nodes get
    none, nor does anyone else; and the table is empty afterwards, whatever packets added.
   */
  lemma RoundEffect(env: Env, start: System, mid: seq<Event>, i: nat)
    requires Sound(env, start) && start.phase.Idle? && i < |start.node.table.items|
    requires var r := Run(env, start, [Tick] + mid + [EndRound]);
             NoEnd(mid) && r.Ok? && r.value.phase.Idle?
    ensures var r, n := Run(env, start, [Tick] + mid + [EndRound]).value, start.node;
            var e, before := n.table.items[i], Select(n.out, false);
            && r.node.table == Empty(n.id, n.table.max)
            && IsId(e.value.id)
            && before <= Select(r.node.out, false)
            && var qs := Select(r.node.out, false)[|before|..];
            && |qs| == FarEntries(n.table.items)
            && CountTo(qs, e.value.addr) == (if e.distance < 80 then 1 else 0)
            && (e.distance < 80 ==>
                  && Sent(e.value.addr, FindNodeMsg(env, i, e.value.id[..10] + n.id[10..])) in qs
                  && IsFindNode(FindNodeMsg(env, i, e.value.id[..10] + n.id[10..]), e.value.id[..10] + n.id[10..]))
  {
    hide InStep, Ordered, Fits, OneEach, FindNodeMsg, RoundQueries, Run, CountTo, FarEntries, Select, IsFindNode;
    var n := start.node;
    EntriesAreApart(n.table);
    FitsIsId(n.id, n.table.items);
    QueryPerEntry(env, n.id, n.table.items, i);
    RoundSendsNoMore(env, n.id, n.table.items);
    RoundEnds(env, start, mid);
    FindNodeShape(env, i, n.table.items[i].value.id[..10] + n.id[10..]);
    var before, qs := Select(n.out, false), RoundQueries(env, n.id, n.table.items);
    assert (before + qs)[|before|..] == qs;
  }

  // ---------- bootstrapping beside packets ----------

  /** Every router is sent one find_node under our own id, in order. */
  lemma BootstrapReaches(env: Env, id: seq<Byte>, k: nat)
    requires k < |env.routers|
    ensures |Bootstrap(env, id)| == |env.routers|
    ensures var q := Bootstrap(env, id)[k];
            q.to == env.routers[k] && IsFindNode(q.msg, id)
  {
    FindNodeShape(env, k, id);
  }

  ghost predicate InBootstrap(env: Env, start: System, s: System)
    requires IsId(start.node.id)
  {
    && s.node.id == start.node.id
    && s.phase.Bootstrapping? && s.phase.next <= |env.routers|
    && Select(s.node.out, false)
       == Select(start.node.out, false) + Bootstrap(env, start.node.id)[..s.phase.next]
  }

  lemma BootstrapStep(env: Env, start: System, s: System, e: Event)
    requires Ready(start.node) && Ready(s.node) && InBootstrap(env, start, s) && !e.EndRound? && Step(env, s, e).Ok?
    ensures InBootstrap(env, start, Step(env, s, e).value)
  {
    hide Due, ProcessPacket, Added, Moved, QueryTo, FindNodeMsg, Bootstrap;
    var all, next := Bootstrap(env, start.node.id), s.phase.next;
    StepSelects(env, s, e, false);
    BootstrapLength(env, start.node.id);
    if e.Packet? {
      PacketAdds(env, s.node, e.sender, e.data);
    }
    if e.Ask? && next < |env.routers| {
      assert all[..next + 1] == all[..next] + [all[next]];
    }
  }

  lemma BootstrapLength(env: Env, id: seq<Byte>)
    ensures |Bootstrap(env, id)| == |env.routers|
  {
  }

  lemma {:induction false} BootstrapSoFar(env: Env, start: System, mid: seq<Event>)
    requires Ready(start.node) && start.phase == Bootstrapping(0) && NoEnd(mid) && Run(env, start, mid).Ok?
    ensures InBootstrap(env, start, Run(env, start, mid).value)
  {
    hide Step, InBootstrap;
    if |mid| == 0 {
      BootstrapStarts(env, start);
    } else {
      BootstrapSoFar(env, start, mid[..|mid| - 1]);
      BootstrapStep(env, start, Run(env, start, mid[..|mid| - 1]).value, mid[|mid| - 1]);
    }
  }

  lemma BootstrapStarts(env: Env, start: System)
    requires Ready(start.node) && start.phase == Bootstrapping(0)
    ensures InBootstrap(env, start, start)
  {
    assert Select(start.node.out, false) + Bootstrap(env, start.node.id)[..0] == Select(start.node.out, false);
  }

  /**
    Bootstrapping, at the start or after a tick on an empty table, with packets at any moment
    in between: every router is sent exactly one find_node in its turn, under our own id, and
    no other query is sent.
   */
  lemma BootstrapEffect(env: Env, start: System, mid: seq<Event>, k: nat)
    requires Ready(start.node) && start.phase == Bootstrapping(0) && NoEnd(mid) && k < |env.routers|
    requires var r := Run(env, start, mid + [EndRound]);
             r.Ok? && r.value.phase.Idle?
    ensures var r := Run(env, start, mid + [EndRound]).value;
            var before, after := Select(start.node.out, false), Select(r.node.out, false);
            && before <= after && |after| == |before| + |env.routers|
            && var q := after[|before| + k];
            && q.to == env.routers[k] && IsFindNode(q.msg, start.node.id)
  {
    hide Select, Bootstrap, IsFindNode;
    RunSnoc(env, start, mid, EndRound);
    BootstrapSoFar(env, start, mid);
    BootstrapReaches(env, start.node.id, k);
    var all := Bootstrap(env, start.node.id);
    assert all[..|env.routers|] == all;
  }

  // ---------- the blacklist ----------

  /** An event that blacklists an address in the state it meets. */
  ghost predicate Puts(s: System, e: Event, addr: string) {
    match e
    case Packet(sender, data) =>
      && sender == addr && sender !in s.node.blacklist
      && data.Decoded? && (Refusable(s.node, data.dict) || BadList(s.node, data.dict))
    case WriteError(a) => a == addr
    case _ => false
  }

  ghost predicate PutsAt(env: Env, start: System, events: seq<Event>, k: nat, addr: string)
    requires Ready(start.node) && k < |events|
  {
    Run(env, start, events[..k]).Ok? && Puts(Run(env, start, events[..k]).value, events[k], addr)
  }

  /** The cache keeps an address over all events from the k-th on. */
  predicate KeptFrom(events: seq<Event>, k: nat, addr: string) {
    forall i :: k <= i < |events| ==> events[i].Forget? ==> addr !in events[i].addrs
  }

  lemma StepBlacklist(env: Env, s: System, e: Event, addr: string)
    requires Ready(s.node) && Step(env, s, e).Ok?
    ensures addr in Step(env, s, e).value.node.blacklist <==>
              (addr in s.node.blacklist && !(e.Forget? && addr in e.addrs)) || Puts(s, e, addr)
  {
    hide ProcessPacket, Refusable, BadList, QueryTo, Moved, Bootstrap;
    if e.Packet? {
      if e.sender in s.node.blacklist {
        BlacklistEffect(env, s.node, e.sender, e.data);
      } else {
        BlacklistIff(env, s.node, e.sender, e.data);
      }
    }
  }

  /**
    Over every run an address is blacklisted exactly if it was at the start or was put there
    since, by a packet that deserves it or a failed write, and has not been forgotten after.
   */
  lemma {:induction false} RunBlacklistIff(env: Env, start: System, events: seq<Event>, addr: string)
    requires Ready(start.node) && Run(env, start, events).Ok?
    ensures addr in Run(env, start, events).value.node.blacklist <==>
              || (addr in start.node.blacklist && KeptFrom(events, 0, addr))
              || exists k :: 0 <= k < |events| && PutsAt(env, start, events, k, addr) && KeptFrom(events, k + 1, addr)
  {
    hide Step, Puts;
    if |events| > 0 {
      var last := |events| - 1;
      var front := events[..last];
      RunBlacklistIff(env, start, front, addr);
      StepBlacklist(env, Run(env, start, front).value, events[last], addr);
      BlacklistMore(env, start, events, addr);
    }
  }

  lemma BlacklistMore(env: Env, start: System, events: seq<Event>, addr: string)
    requires Ready(start.node) && |events| > 0 && Run(env, start, events[..|events| - 1]).Ok?
    ensures var last := |events| - 1;
            var front, e := events[..last], events[last];
            var keeps := !(e.Forget? && addr in e.addrs);
            && (KeptFrom(events, 0, addr) <==> KeptFrom(front, 0, addr) && keeps)
            && ((exists k :: 0 <= k < |events| && PutsAt(env, start, events, k, addr) && KeptFrom(events, k + 1, addr))
                <==> || Puts(Run(env, start, front).value, e, addr)
                     || (keeps && exists k ::
                           0 <= k < last && PutsAt(env, start, front, k, addr) && KeptFrom(front, k + 1, addr)))
  {
    hide Run, Puts;
    var last := |events| - 1;
    var front := events[..last];
    forall k | 0 <= k < last
      ensures PutsAt(env, start, events, k, addr) <==> PutsAt(env, start, front, k, addr)
      ensures KeptFrom(events, k + 1, addr) <==>
                KeptFrom(front, k + 1, addr) && !(events[last].Forget? && addr in events[last].addrs)
    {
      assert events[..k] == front[..k];
      KeptMore(events, k + 1, addr);
    }
    KeptMore(events, 0, addr);
    assert PutsAt(env, start, events, last, addr) <==> Puts(Run(env, start, front).value, events[last], addr);
    assert KeptFrom(events, last + 1, addr);
  }

  lemma KeptMore(events: seq<Event>, k: nat, addr: string)
    requires k < |events|
    ensures var last := |events| - 1;
            KeptFrom(events, k, addr) <==>
              KeptFrom(events[..last], k, addr) && !(events[last].Forget? && addr in events[last].addrs)
  {
    var last := |events| - 1;
    if KeptFrom(events[..last], k, addr) && !(events[last].Forget? && addr in events[last].addrs) {
      forall i | k <= i < |events| && events[i].Forget?
        ensures addr !in events[i].addrs
      {
        assert i < last ==> events[..last][i] == events[i];
      }
    }
    if KeptFrom(events, k, addr) {
      forall i | k <= i < last && events[..last][i].Forget?
        ensures addr !in events[..last][i].addrs
      {
        assert events[..last][i] == events[i];
      }
    }
  }

  // ---------- rounds with nothing in between ----------

  ghost predicate AllAsks(events: seq<Event>) {
    forall i :: 0 <= i < |events| ==> events[i].Ask?
  }

  /** How many queries the loop goes through after a tick. */
  function Turns(env: Env, n: State): (k: nat) {
    if |n.table.items| == 0 then |env.routers| else |n.table.items|
  }

  ghost predicate AskedUpTo(env: Env, n: State, s: System, k: nat)
    requires IsId(n.id) && AllFit(n.id, n.table.items) && k <= Turns(env, n)
  {
    var items := n.table.items;
    && Ready(s.node) && s.node.table.id == n.id && s.node.table.max == n.table.max
    && s.node == n.(table := s.node.table, out := s.node.out)
    && if |items| == 0
       then s.phase == Bootstrapping(k) && s.node.table == n.table && s.node.out == n.out + Bootstrap(env, n.id)[..k]
       else s.phase == Asking(items, k) && s.node.out == n.out + RoundQueries(env, n.id, items[..k])
  }

  lemma AskNext(env: Env, n: State, s: System, k: nat, slot: nat)
    requires Ready(n) && AllFit(n.id, n.table.items) && k < Turns(env, n) && AskedUpTo(env, n, s, k)
    ensures AskedUpTo(env, n, OnAsk(env, s, slot), k + 1)
  {
    hide Fits, Moved, QueryTo, FindNodeMsg;
    var items := n.table.items;
    FitsIsId(n.id, items);
    if |items| == 0 {
      assert Bootstrap(env, n.id)[..k + 1] == Bootstrap(env, n.id)[..k] + [Bootstrap(env, n.id)[k]];
    } else {
      assert items[..k + 1][..k] == items[..k];
    }
  }

  lemma {:induction false} AsksSoFar(env: Env, start: System, asks: seq<Event>)
    requires Ready(start.node) && AllFit(start.node.id, start.node.table.items) && start.phase.Idle?
    requires AllAsks(asks) && |asks| <= Turns(env, start.node)
    ensures Run(env, start, [Tick] + asks).Ok?
    ensures AskedUpTo(env, start.node, Run(env, start, [Tick] + asks).value, |asks|)
  {
    hide Fits, OnAsk, AskedUpTo;
    RunSplit(env, start, [Tick], asks);
    RunOne(env, start, Tick);
    if |asks| == 0 {
      TickAsksNobody(env, start);
    } else {
      var front := asks[..|asks| - 1];
      RunSplit(env, start, [Tick], front);
      AsksSoFar(env, start, front);
      AskNext(env, start.node, Run(env, start, [Tick] + front).value, |front|, asks[|front|].slot);
    }
  }

  lemma TickAsksNobody(env: Env, start: System)
    requires Ready(start.node) && AllFit(start.node.id, start.node.table.items) && start.phase.Idle?
    ensures AskedUpTo(env, start.node, OnTick(start), 0)
  {
    var n := start.node;
    assert n.table.items[..0] == [] && RoundQueries(env, n.id, []) == [];
    assert n.out + [] == n.out && Bootstrap(env, n.id)[..0] == [];
  }

  /** Steps with nothing in between amount to the round that `NeighbourRound` is proved to be. */
  lemma UninterruptedRound(env: Env, start: System, asks: seq<Event>)
    requires Sound(env, start) && start.phase.Idle? && AllAsks(asks) && |asks| == Turns(env, start.node)
    ensures Run(env, start, [Tick] + asks + [EndRound]) == Ok(System(Round(env, start.node), Idle))
  {
    hide InStep, Ordered, Fits, OneEach;
    var n := start.node;
    EntriesAreApart(n.table);
    AsksSoFar(env, start, asks);
    RunSnoc(env, start, [Tick] + asks, EndRound);
    assert n.table.items[..|n.table.items|] == n.table.items;
    assert Bootstrap(env, n.id)[..|env.routers|] == Bootstrap(env, n.id);
  }

  /** Between two ticks on an empty table the round is bootstrapping: it reaches every router. */
  lemma EmptyRoundReaches(env: Env, n: State, k: nat)
    requires Node.Valid(n) && |n.table.items| == 0 && k < |env.routers|
    ensures var r := Round(env, n);
            && n.out <= r.out && |r.out| == |n.out| + |env.routers|
            && var q := r.out[|n.out| + k];
            && q.to == env.routers[k] && IsFindNode(q.msg, n.id)
  {
    hide IsFindNode;
    BootstrapReaches(env, n.id, k);
  }
}
