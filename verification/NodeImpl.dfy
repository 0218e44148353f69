/** The node with its table, blacklist and outgoing queue changed in place (dht/node.go, dht/messages.go). */
module NodeImpl {
  import opened Bytes
  import opened Results
  import opened Krpc
  import opened Infohash
  import opened CompactAddr
  import opened Heap
  import RT = RoutingTable
  import opened N = Node
  import opened RoutingTableImpl

  /** What a handler tells its caller: nothing, an error, or a panic. */
  datatype Handling = Good | Bad | Panic

  ghost predicate Agrees(h: Handling, after: State, r: Outcome) {
    match r
    case Handled(n) => h == Good && after == n
    case Refused(n) => h == Bad && after == n
    case Crashed => h == Panic
  }

  method ArrayOf(s: seq<Byte>) returns (a: array<Byte>)
    ensures fresh(a) && a[..] == s
  {
    a := new Byte[|s|](i requires 0 <= i < |s| => s[i]);
  }

  class DhtNode {
    const id: array<Byte>
    const env: Env
    const family: Family
    const rTable: RoutingTableImpl.RoutingTable
    var blacklist: set<string>
    var packetsOut: seq<Sent>

    ghost predicate Valid()
      reads this, rTable, rTable.items, rTable.owned
    {
      rTable.Valid() && rTable.id == id
    }

    ghost function Model(): (n: State)
      reads this, id, rTable, rTable.id, rTable.items, Ids(rTable.items.items)
    {
      State(id[..], family, rTable.Model(), blacklist, packetsOut)
    }

    constructor (id: array<Byte>, env: Env, family: Family, max: int)
      requires id.Length == INFOHASH_LENGTH && max >= 1
      ensures Valid() && fresh(rTable) && fresh(rTable.items) && fresh(rTable.owned)
      ensures Model() == State(id[..], family, RT.Empty(id[..], max), {}, [])
    {
      this.id := id;
      this.env := env;
      this.family := family;
      this.rTable := new RoutingTableImpl.RoutingTable(id, max);
      this.blacklist := {};
      this.packetsOut := [];
    }

    method QueueMsg(to: string, msg: Fields)
      modifies this
      ensures blacklist == old(blacklist) && packetsOut == old(packetsOut) + [Sent(to, msg)]
    {
      packetsOut := packetsOut + [Sent(to, msg)];
    }

    method AddRemote(sender: string, ih: seq<Byte>)
      requires Valid()
      modifies rTable, rTable.items, rTable.owned
      ensures Valid() && rTable.items == old(rTable.items) && fresh(rTable.owned - old(rTable.owned))
      ensures Model() == AddNode(old(Model()), RT.Remote(sender, ih))
    {
      ghost var n := Model();
      var a := ArrayOf(ih);
      var rn := new RemoteNode(sender, a);
      assert rTable.Model() == n.table && rn.Snapshot() == RT.Remote(sender, ih);
      rTable.Add(rn);
    }

    method OnPingQuery(sender: string, m: Fields) returns (h: Handling)
      requires Valid()
      modifies this
      ensures Valid() && Agrees(h, Model(), OnPing(old(Model()), sender, m))
    {
      var t := GetString(m, "t");
      if t.Err? {
        return Bad;
      }
      QueueMsg(sender, MakeResponse(t.value, map["id" := Str(id[..])]));
      return Good;
    }

    method OnGetPeersQuery(sender: string, m: Fields) returns (h: Handling)
      requires Valid()
      modifies this
      ensures Valid() && Agrees(h, Model(), OnGetPeers(old(Model()), sender, m))
    {
      var a := GetMap(m, "a");
      if a.Err? {
        return Bad;
      }
      var torrent := GetString(a.value, "info_hash");
      if torrent.Err? {
        return Bad;
      }
      var ih := FromString(torrent.value);
      if ih.Err? {
        return Bad;
      }
      var token := torrent.value[..2];
      var th := ArrayOf(ih.value);
      var neighbour := GenerateNeighbour(id, th);
      var t := GetString(m, "t");
      if t.Err? {
        return Panic;
      }
      assert neighbour[..] == NeighbourOf(id[..], ih.value);
      QueueMsg(sender, MakeResponse(t.value,
        map["id" := Str(neighbour[..]), "token" := Str(token), "nodes" := Str([])]));
      return Good;
    }

    /** Adds the nodes of a list, record by record; a list of the wrong length blacklists its sender. */
    method ProcessFindNodeResults(sender: string, list: seq<Byte>)
      requires Valid()
      modifies this, rTable, rTable.items, rTable.owned
      ensures Valid() && rTable.items == old(rTable.items) && fresh(rTable.owned - old(rTable.owned))
      ensures Model() == ProcessNodes(env, old(Model()), sender, list)
    {
      var k := if family == UDP6 then IPV6_NODE_ADDR_LEN else IPV4_NODE_ADDR_LEN;
      if |list| % k != 0 {
        blacklist := blacklist + {sender};
        return;
      }
      AddList(list, k);
    }

    method AddList(list: seq<Byte>, k: nat)
      requires Valid() && k == NodeLength(family) && |list| % k == 0
      modifies rTable, rTable.items, rTable.owned
      ensures Valid() && rTable.items == old(rTable.items) && fresh(rTable.owned - old(rTable.owned))
      ensures rTable.Model() == AddRecords(env, family, old(rTable.Model()), Records(list, k))
    {
      hide AddRecord, AddRecords, Records;
      ghost var rs := Records(list, k);
      ghost var t := rTable.Model();
      ghost var j := 0;
      var i := 0;
      assert list[i..] == list && rs[j..] == rs;
      NoRecords(env, family, t, rs, k);
      while i < |list|
        invariant Valid() && rTable.items == old(rTable.items) && fresh(rTable.owned - old(rTable.owned))
        invariant 0 <= i <= |list| && (|list| - i) % k == 0
        invariant 0 <= j <= |rs| && Records(list[i..], k) == rs[j..]
        invariant rTable.Model() == AddRecords(env, family, t, rs[..j])
      {
        NextRecord(list, i, k);
        var record := list[i..i + k];
        assert record == rs[j..][0] == rs[j];
        assert rs[j + 1..] == rs[j..][1..];
        AddRecordsSnoc(env, family, t, rs, j);
        AddOne(record);
        i := i + k;
        j := j + 1;
      }
      assert list[i..] == [];
      assert rs[..j] == rs;
    }

    method AddOne(record: seq<Byte>)
      requires Valid() && |record| >= 20
      modifies rTable, rTable.items, rTable.owned
      ensures Valid() && rTable.items == old(rTable.items) && fresh(rTable.owned - old(rTable.owned))
      ensures rTable.Model() == AddRecord(env, family, old(rTable.Model()), record)
    {
      var addrStr := DecodeCompactNodeAddr(record[20..], env.print6);
      var ih := FromString(record[..20]);
      if ih.Err? {
        return;
      }
      var addr := env.resolve(family, addrStr);
      if addr.Err? || addr.value.port == 0 {
        return;
      }
      ghost var t := rTable.Model();
      var a := ArrayOf(ih.value);
      var rn := new RemoteNode(addr.value.text, a);
      assert rTable.Model() == t && rn.Snapshot() == RT.Remote(addr.value.text, ih.value);
      rTable.Add(rn);
    }

    method HandleRequest(sender: string, m: Fields) returns (h: Handling)
      requires Valid()
      modifies this, rTable, rTable.items, rTable.owned
      ensures Valid() && rTable.items == old(rTable.items) && fresh(rTable.owned - old(rTable.owned))
      ensures Agrees(h, Model(), N.HandleRequest(old(Model()), sender, m))
    {
      hide RT.Add, FromString;
      var q, a := GetString(m, "q"), GetMap(m, "a");
      if q.Err? || a.Err? {
        return Bad;
      }
      var idText := GetString(a.value, "id");
      if idText.Err? {
        return Bad;
      }
      var ih := FromString(idText.value);
      if ih.Err? {
        return Bad;
      }
      assert ClaimedId(m, "a") == ih;
      if id[..] == ih.value {
        return Good;
      }
      if q.value == PING {
        h := OnPingQuery(sender, m);
      } else if q.value == GET_PEERS {
        h := OnGetPeersQuery(sender, m);
        if h == Panic {
          return;
        }
      } else if q.value == ANNOUNCE_PEER {
        h := Good;
      } else {
        return Good;
      }
      AddRemote(sender, ih.value);
    }

    /** A response with nodes runs through their list twice before its sender is added. */
    method HandleResponse(sender: string, m: Fields) returns (h: Handling)
      requires Valid()
      modifies this, rTable, rTable.items, rTable.owned
      ensures Valid() && rTable.items == old(rTable.items) && fresh(rTable.owned - old(rTable.owned))
      ensures Agrees(h, Model(), N.HandleResponse(env, old(Model()), sender, m))
    {
      hide RT.Add, FromString, ProcessNodes;
      var r := GetMap(m, "r");
      if r.Err? {
        return Bad;
      }
      var idText := GetString(r.value, "id");
      if idText.Err? {
        return Bad;
      }
      var ih := FromString(idText.value);
      if ih.Err? {
        return Bad;
      }
      assert ClaimedId(m, "r") == ih;
      var nodes := GetString(r.value, "nodes");
      if nodes.Ok? {
        ProcessFindNodeResults(sender, nodes.value);
        ProcessFindNodeResults(sender, nodes.value);
        AddRemote(sender, ih.value);
        return Good;
      }
      var values := GetList(r.value, "values");
      if values.Ok? {
        var i := 0;
        while i < |values.value|
          invariant 0 <= i <= |values.value| && AllStrings(values.value[..i])
        {
          if !values.value[i].Str? {
            return Panic;
          }
          i := i + 1;
        }
        assert values.value[..i] == values.value;
        AddRemote(sender, ih.value);
      }
      return Good;
    }

    method HandleError(m: Fields) returns (h: Handling)
      requires Valid()
      ensures Agrees(h, Model(), N.HandleError(Model(), m))
    {
      var e := GetList(m, "e");
      if e.Err? || |e.value| != 2 {
        return Bad;
      }
      return if e.value[0].Int? && e.value[1].Str? then Good else Panic;
    }

    method ProcessPacket(sender: string, data: Decoded) returns (h: Handling)
      requires Valid()
      modifies this, rTable, rTable.items, rTable.owned
      ensures Valid() && rTable.items == old(rTable.items) && fresh(rTable.owned - old(rTable.owned))
      ensures var r := N.ProcessPacket(env, old(Model()), sender, data);
              if h == Panic then r.Err? else r == Ok(Model())
      ensures h == Bad <==> ReturnsError(env, old(Model()), sender, data)
    {
      hide N.HandleRequest, N.HandleResponse, N.HandleError;
      if data.BadDict? {
        return Bad;
      }
      var y := GetString(data.dict, "y");
      if y.Err? {
        return Bad;
      }
      if sender in blacklist {
        return Bad;
      }
      ghost var n := Model();
      if y.value == [0x71] {
        h := HandleRequest(sender, data.dict);
      } else if y.value == [0x72] {
        h := HandleResponse(sender, data.dict);
      } else if y.value == [0x65] {
        h := HandleError(data.dict);
        assert Model() == n;
      } else {
        h := Bad;
      }
      ghost var n' := Model();
      assert Agrees(h, n', Handle(env, n, sender, y.value, data.dict));
      if h == Bad {
        blacklist := blacklist + {sender};
        assert Model() == n'.(blacklist := n'.blacklist + {sender});
      }
    }

    /** Sends a query unless the recipient has our own id. */
    method SendFindNode(rn: RemoteNode, claimed: seq<Byte>, k: nat)
      modifies this
      ensures blacklist == old(blacklist)
      ensures packetsOut == old(packetsOut)
              + if rn.id[..] == id[..] then [] else [Sent(rn.addr, FindNodeMsg(env, k, claimed))]
    {
      var self := Equal(rn.id, id);
      if self {
        return;
      }
      var (t, target) := env.random(k);
      packetsOut := packetsOut
        + [Sent(rn.addr, MakeQuery(t, FIND_NODE, map["id" := Str(claimed), "target" := Str(target)]))];
    }

    method BootstrapAll()
      requires id.Length == INFOHASH_LENGTH
      modifies this
      ensures blacklist == old(blacklist) && packetsOut == old(packetsOut) + Bootstrap(env, id[..])
    {
      ghost var all := Bootstrap(env, id[..]);
      var k := 0;
      while k < |env.routers|
        invariant 0 <= k <= |env.routers|
        invariant blacklist == old(blacklist) && packetsOut == old(packetsOut) + all[..k]
      {
        var none := new Byte[0];
        var rn := new RemoteNode(env.routers[k], none);
        SendFindNode(rn, id[..], k);
        assert all[..k + 1] == all[..k] + [all[k]];
        k := k + 1;
      }
      assert all[..k] == all;
    }

    /** One tick of the neighbour ticker; the ids of the nodes in the table are overwritten. */
    method NeighbourRound()
      requires Valid() && N.Valid(Model())
      modifies this, rTable, Ids(rTable.items.items)
      ensures Valid() && Model() == Round(env, old(Model()))
    {
      hide RT.Valid, RoundQueries, Bootstrap;
      var empty := rTable.IsEmpty();
      if empty {
        BootstrapAll();
        return;
      }
      ghost var n := Model();
      IdsInTable(n.table);
      var nodes := rTable.Get(0);
      ReadyToQuery(nodes);
      QueryAll(nodes, n.table.items, Ids(rTable.items.items));
      rTable.Flush();
    }

    lemma ReadyToQuery(nodes: seq<RemoteNode>)
      requires Valid() && N.Valid(Model()) && |nodes| == |rTable.items.items|
      requires forall j :: 0 <= j < |nodes| ==> nodes[j] == rTable.items.items[j].value
      ensures id !in Ids(rTable.items.items)
      ensures Overwriting(nodes, Model().table.items, id[..], Ids(rTable.items.items))
    {
      hide RT.InStep, Ordered;
      var n := Model();
      IdsInTable(n.table);
      var queue := rTable.items.items;
      forall j | 0 <= j < |queue|
        ensures queue[j].value.id != id && nodes[j].id in Ids(queue)
                && nodes[j].addr == n.table.items[j].value.addr
                && InFlux(nodes[j].id, n.table.items[j].value.id, id[..])
      {
        assert queue[j] in queue;
        assert n.table.items[j].value.id == queue[j].value.id[..] && RT.Fits(n.id, n.table.items[j]);
      }
    }

    /** Where each node's id is while the loop runs: as it was, or overwritten already. */
    ghost predicate Overwriting(
      nodes: seq<RemoteNode>, items: seq<Entry<RT.Remote>>, own: seq<Byte>, ids: set<array<Byte>>)
      reads ids
      requires IsId(own)
    {
      && |nodes| == |items|
      && forall j :: 0 <= j < |nodes| ==>
           nodes[j].id in ids && nodes[j].addr == items[j].value.addr && InFlux(nodes[j].id, items[j].value.id, own)
    }

    /** Sends the queries of a round, overwriting the id of every node on the way. */
    method QueryAll(nodes: seq<RemoteNode>, ghost items: seq<Entry<RT.Remote>>, ghost ids: set<array<Byte>>)
      requires id.Length == INFOHASH_LENGTH && id !in ids && Overwriting(nodes, items, id[..], ids)
      modifies this, ids
      ensures blacklist == old(blacklist)
      ensures forall j :: 0 <= j < |items| ==> IsId(items[j].value.id)
      ensures packetsOut == old(packetsOut) + RoundQueries(env, id[..], items)
    {
      hide InFlux, NeighbourOf;
      ghost var own := id[..];
      KnownIds(nodes, items, own, ids);
      var i := 0;
      while i < |nodes|
        invariant 0 <= i <= |nodes| && id[..] == own && Overwriting(nodes, items, own, ids)
        invariant blacklist == old(blacklist)
        invariant packetsOut == old(packetsOut) + RoundQueries(env, own, items[..i])
      {
        Overwrite(nodes, items, i, ids);
        SendFindNode(nodes[i], nodes[i].id[..], i);
        assert items[..i + 1][..i] == items[..i];
        i := i + 1;
      }
      assert items[..i] == items;
    }

    lemma KnownIds(
      nodes: seq<RemoteNode>, items: seq<Entry<RT.Remote>>, own: seq<Byte>, ids: set<array<Byte>>)
      requires IsId(own) && Overwriting(nodes, items, own, ids)
      ensures forall j :: 0 <= j < |items| ==> IsId(items[j].value.id)
    {
    }

    /** The in-place overwrite of one id, seen from all nodes, which may share arrays. */
    method Overwrite(nodes: seq<RemoteNode>, ghost items: seq<Entry<RT.Remote>>, i: nat, ghost ids: set<array<Byte>>)
      requires id.Length == INFOHASH_LENGTH && id !in ids && Overwriting(nodes, items, id[..], ids) && i < |nodes|
      modifies nodes[i].id
      ensures Overwriting(nodes, items, id[..], ids) && IsId(items[i].value.id)
      ensures nodes[i].id[..] == NeighbourOf(id[..], items[i].value.id)
    {
      ghost var own := id[..];
      ghost var a := nodes[i].id;
      ghost var was := a[..];
      assert InFlux(a, items[i].value.id, own);
      NeighbourIdempotent(own, items[i].value.id);
      var claimed := GenerateNeighbour(id, nodes[i].id);
      forall j | 0 <= j < |nodes|
        ensures InFlux(nodes[j].id, items[j].value.id, own)
      {
        assert old(InFlux(nodes[j].id, items[j].value.id, own));
        NeighbourIdempotent(own, items[j].value.id);
      }
    }
  }

  /** An id that is as it was, or already overwritten. */
  ghost predicate InFlux(a: array<Byte>, was: seq<Byte>, own: seq<Byte>)
    reads a
    requires IsId(own)
  {
    IsId(was) && (a[..] == was || a[..] == NeighbourOf(own, was))
  }

  lemma NoRecords(env: Env, family: Family, t: RT.Table, rs: seq<seq<Byte>>, k: nat)
    requires IsId(t.id) && t.max >= 1 && k > 0
    ensures AddRecords(env, family, t, rs[..0]) == t && Records([], k) == []
  {
  }

  lemma AddRecordsSnoc(env: Env, family: Family, t: RT.Table, rs: seq<seq<Byte>>, j: nat)
    requires IsId(t.id) && t.max >= 1 && j < |rs| && forall i :: 0 <= i < |rs| ==> |rs[i]| >= 20
    ensures AddRecords(env, family, t, rs[..j + 1])
            == AddRecord(env, family, AddRecords(env, family, t, rs[..j]), rs[j])
  {
    assert rs[..j + 1][..j] == rs[..j];
  }

  lemma NextRecord(list: seq<Byte>, i: nat, k: nat)
    requires k > 0 && i < |list| && (|list| - i) % k == 0
    ensures i + k <= |list| && (|list| - (i + k)) % k == 0
    ensures Records(list[i..], k) == [list[i..i + k]] + Records(list[i + k..], k)
  {
    N.Shorter(|list| - i, k);
    assert list[i..][..k] == list[i..i + k] && list[i..][k..] == list[i + k..];
  }
}
