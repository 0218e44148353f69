/**
  The bounded routing table as a value: a heap of remote nodes, the map of their addresses,
  and every run of `add` and `flush` over them (dht/routing_table.go). The class in
  RoutingTableImpl.dfy is proved against these functions.
 */
module RoutingTable {
  import opened Bytes
  import opened Infohash
  import opened Heap

  datatype Remote = Remote(addr: string, id: seq<Byte>)

  datatype Table = Table(
    id: seq<Byte>, max: int, items: seq<Entry<Remote>>, addresses: set<string>)

  function Empty(id: seq<Byte>, max: int): (t: Table) {
    Table(id, max, [], {})
  }

  /** A node worth keeping: a 20-byte id that is not our own. */
  predicate Eligible(t: Table, rn: Remote) {
    |rn.id| == 20 && rn.id != t.id
  }

  predicate Accepts(t: Table, rn: Remote) {
    Eligible(t, rn) && rn.addr !in t.addresses
  }

  ghost function Scored(t: Table, rn: Remote): (e: Entry<Remote>)
    requires IsId(t.id) && IsId(rn.id)
  {
    Entry(rn, CommonPrefix(t.id, rn.id))
  }

  /** The loop that evicts from index i on, while the slice it walks gets shorter. */
  ghost function EvictFrom(t: Table, i: nat): (r: Table)
    decreases |t.items| - i
  {
    if i >= |t.items| then t else EvictFrom(Evicted(t, i), i + 1)
  }

  ghost function Evicted(t: Table, i: nat): (r: Table)
    requires i < |t.items|
  {
    t.(items := Remove(t.items, i), addresses := t.addresses - {t.items[i].value.addr})
  }

  ghost function Pushed(t: Table, rn: Remote): (r: Table)
    requires IsId(t.id) && IsId(rn.id)
  {
    t.(items := Push(t.items, Scored(t, rn)), addresses := t.addresses + {rn.addr})
  }

  /** The end of `add`: evict from the last permitted slot on if the slice is too long. */
  ghost function Trimmed(t: Table): (r: Table)
    requires t.max >= 1
    ensures r.id == t.id && r.max == t.max
  {
    EvictKeepsHeader(t, t.max - 1);
    if |t.items| > t.max then EvictFrom(t, t.max - 1) else t
  }

  ghost function Add(t: Table, rn: Remote): (r: Table)
    requires IsId(t.id) && t.max >= 1
    ensures r.id == t.id && r.max == t.max
  {
    if Accepts(t, rn) then Trimmed(Pushed(t, rn)) else t
  }

  lemma {:induction false} EvictKeepsHeader(t: Table, i: nat)
    ensures EvictFrom(t, i).id == t.id && EvictFrom(t, i).max == t.max
    decreases |t.items| - i
  {
    if i < |t.items| {
      EvictKeepsHeader(Evicted(t, i), i + 1);
    }
  }

  // ---------- the invariant ----------

  /** The address map holds the addresses of the entries, one entry per address. */
  ghost predicate InStep(m: multiset<Entry<Remote>>, addresses: set<string>) {
    Addressed(m, addresses) && Apart(m) && Covered(m, addresses)
  }

  ghost predicate Addressed(m: multiset<Entry<Remote>>, addresses: set<string>) {
    forall e :: e in m ==> m[e] == 1 && e.value.addr in addresses
  }

  ghost predicate Apart(m: multiset<Entry<Remote>>) {
    forall e, f :: e in m && f in m && e.value.addr == f.value.addr ==> e == f
  }

  ghost predicate Covered(m: multiset<Entry<Remote>>, addresses: set<string>) {
    forall a :: a in addresses ==> exists e :: e in m && e.value.addr == a
  }

  /** A remote node that may be in our table, with its true distance cached. */
  ghost predicate Fits(id: seq<Byte>, e: Entry<Remote>)
    requires IsId(id)
  {
    IsId(e.value.id) && e.value.id != id && e.distance == CommonPrefix(id, e.value.id)
  }

  /** Heap and map are in order, whatever the ids of the entries. */
  ghost predicate Structured(t: Table) {
    && IsId(t.id) && t.max >= 1
    && Ordered(t.items, |t.items|)
    && InStep(multiset(t.items), t.addresses)
  }

  ghost predicate Valid(t: Table) {
    && Structured(t) && |t.items| <= t.max
    && forall e :: e in multiset(t.items) ==> Fits(t.id, e)
  }

  lemma InStepInsert(m: multiset<Entry<Remote>>, addresses: set<string>, e: Entry<Remote>)
    requires InStep(m, addresses) && e.value.addr !in addresses
    ensures InStep(m + multiset{e}, addresses + {e.value.addr})
  {
    hide Covered;
    assert e !in m;
    CoveredInsert(m, addresses, e);
  }

  lemma CoveredInsert(m: multiset<Entry<Remote>>, addresses: set<string>, e: Entry<Remote>)
    requires Covered(m, addresses)
    ensures Covered(m + multiset{e}, addresses + {e.value.addr})
  {
    forall a | a in addresses + {e.value.addr}
      ensures exists f :: f in m + multiset{e} && f.value.addr == a
    {
      if a == e.value.addr {
        assert e in m + multiset{e};
      } else {
        var f :| f in m && f.value.addr == a;
        assert f in m + multiset{e};
      }
    }
  }

  lemma InStepDelete(m: multiset<Entry<Remote>>, addresses: set<string>, e: Entry<Remote>)
    requires InStep(m, addresses) && e in m
    ensures InStep(m - multiset{e}, addresses - {e.value.addr})
  {
    hide Covered;
    CoveredDelete(m, addresses, e);
  }

  lemma CoveredDelete(m: multiset<Entry<Remote>>, addresses: set<string>, e: Entry<Remote>)
    requires Covered(m, addresses)
    ensures Covered(m - multiset{e}, addresses - {e.value.addr})
  {
    forall a | a in addresses - {e.value.addr}
      ensures exists f :: f in m - multiset{e} && f.value.addr == a
    {
      var f :| f in m && f.value.addr == a;
      assert f in m - multiset{e};
    }
  }

  /** As many addresses as entries. */
  lemma {:induction false} SizesAgree(m: multiset<Entry<Remote>>, addresses: set<string>)
    requires InStep(m, addresses)
    ensures |m| == |addresses|
    decreases |m|
  {
    if m == multiset{} {
      assert addresses == {};
    } else {
      var e :| e in m;
      InStepDelete(m, addresses, e);
      SizesAgree(m - multiset{e}, addresses - {e.value.addr});
    }
  }

  lemma PushedStructured(t: Table, rn: Remote)
    requires Structured(t) && Accepts(t, rn)
    ensures Structured(Pushed(t, rn))
  {
    PushOrdered(t.items, Scored(t, rn));
    PushAdds(t.items, Scored(t, rn));
    InStepInsert(multiset(t.items), t.addresses, Scored(t, rn));
  }

  lemma EvictedStructured(t: Table, i: nat)
    requires Structured(t) && i < |t.items|
    ensures Structured(Evicted(t, i))
  {
    RemoveOrdered(t.items, i);
    RemoveTakes(t.items, i);
    InStepDelete(multiset(t.items), t.addresses, t.items[i]);
  }

  /**
    The eviction loop on a table one entry too long: the first pass brings the length down
    to the index it moves on to, so there is no second pass.
   */
  lemma EvictsOnce(t: Table)
    requires t.max >= 1 && |t.items| == t.max + 1
    ensures Trimmed(t) == Evicted(t, t.max - 1)
  {
    var r := Evicted(t, t.max - 1);
    assert EvictFrom(r, t.max) == r;
  }

  lemma AddStructured(t: Table, rn: Remote)
    requires Structured(t) && |t.items| <= t.max
    ensures Structured(Add(t, rn)) && |Add(t, rn).items| <= t.max
  {
    hide Push, Remove, EvictFrom, InStep, Ordered;
    if Accepts(t, rn) {
      var p := Pushed(t, rn);
      PushedStructured(t, rn);
      if |t.items| == t.max {
        EvictsOnce(p);
        EvictedStructured(p, t.max - 1);
      }
    }
  }

  /** `add` brings in no entry but the one for its node. */
  lemma AddEntries(t: Table, rn: Remote, e: Entry<Remote>)
    requires IsId(t.id) && t.max >= 1 && |t.items| <= t.max && e in multiset(Add(t, rn).items)
    ensures e in multiset(t.items) || (Accepts(t, rn) && e == Scored(t, rn))
  {
    hide Push, Remove, EvictFrom;
    if Accepts(t, rn) {
      if |t.items| == t.max {
        AddToFull(t, rn);
      } else {
        AddToRoom(t, rn);
      }
    }
  }

  /** `add` keeps everything that makes a table valid. */
  lemma AddValid(t: Table, rn: Remote)
    requires Valid(t)
    ensures Valid(Add(t, rn))
  {
    hide Add, InStep, Ordered;
    AddStructured(t, rn);
    forall e | e in multiset(Add(t, rn).items)
      ensures Fits(t.id, e)
    {
      AddEntries(t, rn, e);
    }
  }

  /** An accepted `add` to a table with room takes in the node. */
  lemma AddToRoom(t: Table, rn: Remote)
    requires IsId(t.id) && 1 <= t.max && |t.items| < t.max && Accepts(t, rn)
    ensures multiset(Add(t, rn).items) == multiset(t.items) + multiset{Scored(t, rn)}
    ensures Add(t, rn).addresses == t.addresses + {rn.addr}
  {
    PushAdds(t.items, Scored(t, rn));
  }

  /** The entry a full table loses: whatever the push leaves in the last permitted slot. */
  ghost function Victim(t: Table, rn: Remote): (e: Entry<Remote>)
    requires IsId(t.id) && 1 <= t.max && |t.items| == t.max && IsId(rn.id)
  {
    Push(t.items, Scored(t, rn))[t.max - 1]
  }

  /** An accepted `add` to a full table takes in the node and evicts exactly one entry. */
  lemma AddToFull(t: Table, rn: Remote)
    requires IsId(t.id) && 1 <= t.max && |t.items| == t.max && Accepts(t, rn)
    ensures |Add(t, rn).items| == t.max
    ensures multiset(Add(t, rn).items)
            == multiset(t.items) + multiset{Scored(t, rn)} - multiset{Victim(t, rn)}
    ensures Add(t, rn).addresses == t.addresses + {rn.addr} - {Victim(t, rn).value.addr}
  {
    hide Push, Remove, EvictFrom;
    var p := Pushed(t, rn);
    EvictsOnce(p);
    PushAdds(t.items, Scored(t, rn));
    RemoveTakes(p.items, t.max - 1);
  }

  /** With room for two or more, pushing onto a full heap leaves its last slot alone. */
  lemma PushSparesLastSlot<T>(s: seq<Entry<T>>, e: Entry<T>)
    requires |s| >= 2
    ensures Push(s, e)[|s| - 1] == s[|s| - 1]
  {
    UpPermutes(s + [e], |s|);
  }

  /** An entry that occurs once is not both the first and the last of two or more. */
  lemma FirstIsNotLast<T>(s: seq<T>)
    requires |s| >= 2 && multiset(s)[s[0]] == 1
    ensures s[0] != s[|s| - 1]
  {
    var rest := s[1..];
    assert s == [s[0]] + rest;
    assert rest[|rest| - 1] in multiset(rest);
  }

  lemma Exchange<T>(m: multiset<T>, e: T, out: T)
    requires out in m
    ensures m + multiset{e} - multiset{out} == m - multiset{out} + multiset{e}
  {
  }

  lemma RootOccursOnce(t: Table)
    requires Structured(t) && |t.items| > 0
    ensures multiset(t.items)[t.items[0]] == 1
  {
    assert t.items[0] in multiset(t.items);
  }

  /**
    For max at least 2, a node accepted by a full table always stays, at the price of the
    entry that was in the last slot.
   */
  lemma FullAddReplacesLast(t: Table, rn: Remote)
    requires IsId(t.id) && t.max >= 2 && |t.items| == t.max && Accepts(t, rn)
    ensures multiset(Add(t, rn).items)
            == multiset(t.items) - multiset{t.items[t.max - 1]} + multiset{Scored(t, rn)}
  {
    hide Victim, Add;
    VictimIsLast(t, rn);
    AddToFull(t, rn);
    Exchange(multiset(t.items), Scored(t, rn), t.items[t.max - 1]);
  }

  lemma VictimIsLast(t: Table, rn: Remote)
    requires IsId(t.id) && t.max >= 2 && |t.items| == t.max && IsId(rn.id)
    ensures Victim(t, rn) == t.items[t.max - 1]
  {
    PushSparesLastSlot(t.items, Scored(t, rn));
  }

  /** Whether or not the table is full, the new node and the old root are in it afterwards. */
  lemma NewNodeAndRootStay(t: Table, rn: Remote)
    requires Structured(t) && |t.items| <= t.max && t.max >= 2 && Accepts(t, rn)
    ensures Scored(t, rn) in multiset(Add(t, rn).items)
    ensures |t.items| > 0 ==> t.items[0] in multiset(Add(t, rn).items)
  {
    hide Add, InStep, Ordered;
    if |t.items| == t.max {
      RootOccursOnce(t);
      FirstIsNotLast(t.items);
      FullAddReplacesLast(t, rn);
    } else {
      AddToRoom(t, rn);
    }
  }

  lemma AddRejected(t: Table, rn: Remote)
    requires IsId(t.id) && t.max >= 1 && !Accepts(t, rn)
    ensures Add(t, rn) == t
  {
  }

  /** A full table of one keeps the entry that shares less of our id; on a tie the newcomer. */
  lemma AddToOne(t: Table, rn: Remote, x: Entry<Remote>)
    requires IsId(t.id) && t.max == 1 && t.items == [x] && t.addresses == {x.value.addr} && Accepts(t, rn)
    ensures var e := Scored(t, rn);
            Add(t, rn) == if e.distance > x.distance then t else t.(items := [e], addresses := {rn.addr})
  {
    var e := Scored(t, rn);
    EvictsOnce(Pushed(t, rn));
    assert t.items + [e] == [x, e];
    if e.distance > x.distance {
      assert Push(t.items, e) == [e, x];
    } else {
      assert Push(t.items, e) == [x, e];
    }
  }

  lemma AddressListed(t: Table, e: Entry<Remote>)
    requires Structured(t) && e in multiset(t.items)
    ensures e.value.addr in t.addresses
  {
  }

  /** For max at least 2, a node worth keeping is in the table once it has been added. */
  lemma AddedIsListed(t: Table, rn: Remote)
    requires Structured(t) && |t.items| <= t.max && t.max >= 2 && Eligible(t, rn)
    ensures rn.addr in Add(t, rn).addresses
  {
    hide Add, InStep, Ordered, Fits;
    if Accepts(t, rn) {
      NewNodeAndRootStay(t, rn);
      AddStructured(t, rn);
      AddressListed(Add(t, rn), Scored(t, rn));
    } else {
      AddRejected(t, rn);
    }
  }

  /** For any max, adding a node either lists it or changes nothing. */
  lemma AddListsOrKeeps(t: Table, rn: Remote)
    requires Valid(t) && Eligible(t, rn)
    ensures rn.addr in Add(t, rn).addresses || Add(t, rn) == t
  {
    hide Add, Ordered, Fits;
    if t.max >= 2 {
      AddedIsListed(t, rn);
    } else if Accepts(t, rn) {
      if |t.items| == 0 {
        AddToRoom(t, rn);
      } else {
        var x := t.items[0];
        assert t.items == [x];
        SizesAgree(multiset(t.items), t.addresses);
        AddressListed(t, x);
        LoneMember(t.addresses, x.value.addr);
        AddToOne(t, rn, x);
      }
    } else {
      AddRejected(t, rn);
    }
  }

  lemma LoneMember<T>(s: set<T>, x: T)
    requires |s| == 1 && x in s
    ensures s == {x}
  {
    assert |s - {x}| == 0;
  }

  /** The table after adding nodes one by one. */
  ghost function AddAll(t: Table, rns: seq<Remote>): (r: Table)
    requires IsId(t.id) && t.max >= 1
    ensures r.id == t.id && r.max == t.max
  {
    if |rns| == 0 then t else Add(AddAll(t, rns[..|rns| - 1]), rns[|rns| - 1])
  }

  lemma {:induction false} AddAllConcat(t: Table, a: seq<Remote>, b: seq<Remote>)
    requires IsId(t.id) && t.max >= 1
    ensures AddAll(t, a + b) == AddAll(AddAll(t, a), b)
  {
    if |b| == 0 {
      assert a + b == a;
    } else {
      assert (a + b)[..|a + b| - 1] == a + b[..|b| - 1];
      AddAllConcat(t, a, b[..|b| - 1]);
    }
  }

  lemma {:induction false} AddAllValid(t: Table, rns: seq<Remote>)
    requires Valid(t)
    ensures Valid(AddAll(t, rns))
  {
    hide InStep, Ordered, Fits, Add;
    if |rns| > 0 {
      AddAllValid(t, rns[..|rns| - 1]);
      AddValid(AddAll(t, rns[..|rns| - 1]), rns[|rns| - 1]);
    }
  }

  lemma {:induction false} AddAllStructured(t: Table, rns: seq<Remote>)
    requires Structured(t) && |t.items| <= t.max
    ensures Structured(AddAll(t, rns)) && |AddAll(t, rns).items| <= t.max
  {
    hide InStep, Ordered, Add;
    if |rns| > 0 {
      AddAllStructured(t, rns[..|rns| - 1]);
      AddStructured(AddAll(t, rns[..|rns| - 1]), rns[|rns| - 1]);
    }
  }

  // ---------- runs ----------

  datatype Op = AddOp(rn: Remote) | FlushOp

  ghost function Step(t: Table, op: Op): (r: Table)
    requires IsId(t.id) && t.max >= 1
    ensures r.id == t.id && r.max == t.max
  {
    match op
    case AddOp(rn) => Add(t, rn)
    case FlushOp => Empty(t.id, t.max)
  }

  /** The table after a run of operations on a new one. */
  ghost function Run(id: seq<Byte>, max: int, ops: seq<Op>): (t: Table)
    requires IsId(id) && max >= 1
    ensures t.id == id && t.max == max
  {
    if |ops| == 0 then Empty(id, max) else Step(Run(id, max, ops[..|ops| - 1]), ops[|ops| - 1])
  }

  /** The nodes a run accepted since its last flush, oldest first. */
  ghost function Accepted(id: seq<Byte>, max: int, ops: seq<Op>): (log: seq<Remote>)
    requires IsId(id) && max >= 1
  {
    if |ops| == 0 then [] else
      var before := ops[..|ops| - 1];
      match ops[|ops| - 1]
      case FlushOp => []
      case AddOp(rn) =>
        Accepted(id, max, before) + if Accepts(Run(id, max, before), rn) then [rn] else []
  }

  /** Every run of new, add and flush keeps the whole invariant. */
  lemma {:induction false} RunValid(id: seq<Byte>, max: int, ops: seq<Op>)
    requires IsId(id) && max >= 1
    ensures Valid(Run(id, max, ops))
    ensures |Run(id, max, ops).items| == |Run(id, max, ops).addresses|
  {
    if |ops| > 0 {
      var before := ops[..|ops| - 1];
      RunValid(id, max, before);
      if ops[|ops| - 1].AddOp? {
        AddValid(Run(id, max, before), ops[|ops| - 1].rn);
      }
    }
    var t := Run(id, max, ops);
    SizesAgree(multiset(t.items), t.addresses);
  }

  /** The root attains the best distance among the nodes in the log, and is one of them. */
  ghost predicate BestAtRoot(t: Table, log: seq<Remote>)
    requires IsId(t.id)
  {
    if |t.items| == 0 then log == [] else
      && t.items[0].value in log
      && forall rn :: rn in log ==> IsId(rn.id) && CommonPrefix(t.id, rn.id) <= t.items[0].distance
  }

  /** Entries of the table were all accepted since the last flush. */
  ghost predicate Logged(t: Table, log: seq<Remote>) {
    forall e :: e in multiset(t.items) ==> e.value in log
  }

  /** In heap order nothing in the table beats its root. */
  lemma RootBeats(t: Table, e: Entry<Remote>)
    requires Ordered(t.items, |t.items|) && e in multiset(t.items)
    ensures t.items[0].distance >= e.distance && t.items[0] in multiset(t.items)
  {
    var i :| 0 <= i < |t.items| && t.items[i] == e;
    RootIsBest(t.items, i);
  }

  lemma BestAfterAdd(t: Table, rn: Remote, log: seq<Remote>)
    requires Valid(t) && t.max >= 2 && Accepts(t, rn)
    requires BestAtRoot(t, log) && Logged(t, log)
    ensures BestAtRoot(Add(t, rn), log + [rn]) && Logged(Add(t, rn), log + [rn])
  {
    var r := Add(t, rn);
    AddKeepsLog(t, rn, log);
    AddValid(t, rn);
    NewNodeAndRootStay(t, rn);
    RootBeats(r, Scored(t, rn));
    assert r.items[0].value in log + [rn];
    if |t.items| > 0 {
      RootBeats(r, t.items[0]);
    }
  }

  lemma AddKeepsLog(t: Table, rn: Remote, log: seq<Remote>)
    requires Valid(t) && Accepts(t, rn) && Logged(t, log)
    ensures Logged(Add(t, rn), log + [rn])
  {
    if |t.items| == t.max {
      AddToFull(t, rn);
    } else {
      AddToRoom(t, rn);
    }
  }

  /**
    With room for two or more, eviction never loses the best: after every run the root's
    distance is the largest among all nodes accepted since the last flush.
   */
  lemma {:induction false} BestNeverLost(id: seq<Byte>, max: int, ops: seq<Op>)
    requires IsId(id) && max >= 2
    ensures BestAtRoot(Run(id, max, ops), Accepted(id, max, ops))
    ensures Logged(Run(id, max, ops), Accepted(id, max, ops))
  {
    if |ops| > 0 {
      var before := ops[..|ops| - 1];
      BestNeverLost(id, max, before);
      RunValid(id, max, before);
      var t, op := Run(id, max, before), ops[|ops| - 1];
      if op.AddOp? && Accepts(t, op.rn) {
        BestAfterAdd(t, op.rn, Accepted(id, max, before));
      }
    }
  }

  /** An id whose shared prefix with the given one has exactly k bits, for small k. */
  function FlipTop(id: seq<Byte>, k: nat): (r: seq<Byte>)
    requires |id| == 20 && k < 8
    ensures |r| == 20
  {
    id[0 := id[0] ^ Mask(k)]
  }

  lemma FlipTopPrefix(id: seq<Byte>, k: nat)
    requires IsId(id) && k < 8
    ensures CommonPrefix(id, FlipTop(id, k)) == k && FlipTop(id, k) != id
  {
    var f := FlipTop(id, k);
    var x := id[0] ^ f[0];
    assert x == Mask(k);
    PrefixFound(id, f, 0, k);
    assert f[0] != id[0];
  }

  /** A table of one keeps the worse of two nodes: the guarantee is exact. */
  lemma BestKeptIffRoomForTwo(id: seq<Byte>, max: int)
    requires IsId(id) && max >= 1
    ensures (forall ops :: BestAtRoot(Run(id, max, ops), Accepted(id, max, ops))) <==> max >= 2
  {
    if max >= 2 {
      forall ops
        ensures BestAtRoot(Run(id, max, ops), Accepted(id, max, ops))
      {
        BestNeverLost(id, max, ops);
      }
    } else {
      var ops := TableOfOne(id);
    }
  }

  lemma TableOfOne(id: seq<Byte>) returns (ops: seq<Op>)
    requires IsId(id)
    ensures !BestAtRoot(Run(id, 1, ops), Accepted(id, 1, ops))
  {
    var a, b := Remote("a", FlipTop(id, 0)), Remote("b", FlipTop(id, 1));
    FlipTopPrefix(id, 0);
    FlipTopPrefix(id, 1);
    ops := [AddOp(a), AddOp(b)];
    var t0 := Empty(id, 1);
    assert ops[..1] == [AddOp(a)] && ops[..1][..0] == [];
    var t1 := Add(t0, a);
    assert Push(t0.items, Scored(t0, a)) == [Entry(a, 0)];
    assert t1.items == [Entry(a, 0)];
    assert Run(id, 1, ops[..1]) == t1;
    assert Run(id, 1, ops) == Add(t1, b);
    var p := Pushed(t1, b);
    assert t1.items + [Entry(b, 1)] == [Entry(a, 0), Entry(b, 1)];
    assert p.items == [Entry(b, 1), Entry(a, 0)];
    EvictsOnce(p);
    assert Add(t1, b).items == [Entry(a, 0)];
    assert Accepted(id, 1, ops[..1]) == [a];
    assert Accepted(id, 1, ops) == [a, b];
    assert b in [a, b];
  }
}
