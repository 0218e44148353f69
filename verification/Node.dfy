/**
  The DHT node as a state machine over received packets and neighbour rounds (dht/node.go,
  dht/messages.go). The resolver, the random ids and the text form of IPv6 addresses are
  parameters; the blacklist is a set that may also forget addresses on its own.
 */
module Node {
  import opened Bytes
  import opened Results
  import opened Krpc
  import opened Infohash
  import opened CompactAddr
  import opened Heap
  import opened RoutingTable

  datatype Family = UDP4 | UDP6

  datatype UdpAddr = UdpAddr(text: string, port: int)

  /** What the node asks of its surroundings. */
  datatype Env = Env(
    print6: seq<Byte> -> string,
    resolve: (Family, string) -> Result<UdpAddr>,
    routers: seq<string>,
    random: nat -> (seq<Byte>, seq<Byte>))

  datatype Sent = Sent(to: string, msg: Fields)

  datatype State = State(
    id: seq<Byte>, family: Family, table: Table, blacklist: set<string>, out: seq<Sent>)

  ghost predicate Valid(n: State) {
    RoutingTable.Valid(n.table) && n.table.id == n.id
  }

  // ---------- node lists ----------

  const IPV4_NODE_ADDR_LEN := 26
  const IPV6_NODE_ADDR_LEN := 38

  function NodeLength(family: Family): (k: nat)
    ensures k > 20
  {
    if family == UDP6 then IPV6_NODE_ADDR_LEN else IPV4_NODE_ADDR_LEN
  }

  /** A node list cut into records of one length. */
  function Records(list: seq<Byte>, k: nat): (rs: seq<seq<Byte>>)
    requires k > 0
    ensures forall i :: 0 <= i < |rs| ==> |rs[i]| == k
    decreases |list|
  {
    if |list| < k then [] else [list[..k]] + Records(list[k..], k)
  }

  function Flatten(rs: seq<seq<Byte>>): (list: seq<Byte>) {
    if |rs| == 0 then [] else rs[0] + Flatten(rs[1..])
  }

  /** Cutting inverts concatenation: exactly the records, in order. */
  lemma {:induction false} RecordsOfFlatten(rs: seq<seq<Byte>>, k: nat)
    requires k > 0 && forall i :: 0 <= i < |rs| ==> |rs[i]| == k
    ensures Records(Flatten(rs), k) == rs && |Flatten(rs)| == k * |rs|
  {
    if |rs| > 0 {
      RecordsOfFlatten(rs[1..], k);
      var list := Flatten(rs);
      assert list[..k] == rs[0] && list[k..] == Flatten(rs[1..]);
      assert rs == [rs[0]] + rs[1..];
    }
  }

  /** And concatenation inverts cutting when the length is a multiple: no byte is left out. */
  lemma {:induction false} FlattenOfRecords(list: seq<Byte>, k: nat)
    requires k > 0 && |list| % k == 0
    ensures Flatten(Records(list, k)) == list && |Records(list, k)| * k == |list|
    decreases |list|
  {
    if |list| >= k {
      assert |list[k..]| % k == 0 by { Shorter(|list|, k); }
      FlattenOfRecords(list[k..], k);
      assert list == list[..k] + list[k..];
    } else {
      assert |list| == 0;
    }
  }

  lemma Shorter(n: nat, k: nat)
    requires k > 0 && n >= k && n % k == 0
    ensures (n - k) % k == 0
  {
    var q := n / k;
    assert n == q * k;
    assert n - k == (q - 1) * k;
    ModUnique(n - k, k, q - 1, 0);
  }

  /** The remote node of a record, unless its address does not resolve or has port 0. */
  function ReadRecord(env: Env, family: Family, record: seq<Byte>): (r: Result<Remote>)
    requires |record| >= 20
  {
    var ih :- FromString(record[..20]);
    var addr :- env.resolve(family, DecodeCompactNodeAddr(record[20..], env.print6));
    if addr.port == 0 then Err else Ok(Remote(addr.text, ih))
  }

  ghost function AddRecord(env: Env, family: Family, t: Table, record: seq<Byte>): (r: Table)
    requires IsId(t.id) && t.max >= 1 && |record| >= 20
    ensures r.id == t.id && r.max == t.max
  {
    match ReadRecord(env, family, record)
    case Err => t
    case Ok(rn) => Add(t, rn)
  }

  ghost function AddRecords(env: Env, family: Family, t: Table, rs: seq<seq<Byte>>): (r: Table)
    requires IsId(t.id) && t.max >= 1 && forall i :: 0 <= i < |rs| ==> |rs[i]| >= 20
    ensures r.id == t.id && r.max == t.max
  {
    if |rs| == 0 then t else
      AddRecord(env, family, AddRecords(env, family, t, rs[..|rs| - 1]), rs[|rs| - 1])
  }

  ghost function ProcessNodes(env: Env, n: State, sender: string, list: seq<Byte>): (r: State)
    requires IsId(n.table.id) && n.table.max >= 1
    ensures r.table.id == n.table.id && r.table.max == n.table.max
  {
    var k := NodeLength(n.family);
    if |list| % k != 0 then n.(blacklist := n.blacklist + {sender})
    else n.(table := AddRecords(env, n.family, n.table, Records(list, k)))
  }

  // ---------- packets ----------

  /** A handler either succeeds, returns an error, or panics, which ends the program. */
  datatype Outcome = Handled(n: State) | Refused(n: State) | Crashed

  ghost function AddNode(n: State, rn: Remote): (r: State)
    requires IsId(n.table.id) && n.table.max >= 1
    ensures r.table.id == n.table.id && r.table.max == n.table.max
  {
    n.(table := Add(n.table, rn))
  }

  function Queue(n: State, to: string, msg: Fields): (r: State) {
    n.(out := n.out + [Sent(to, msg)])
  }

  function PongFor(n: State, t: seq<Byte>): (msg: Fields) {
    MakeResponse(t, map["id" := Str(n.id)])
  }

  function PeersReplyFor(n: State, t: seq<Byte>, torrent: seq<Byte>, th: seq<Byte>): (msg: Fields)
    requires IsId(n.id) && IsId(th) && |torrent| >= 2
  {
    MakeResponse(t, map["id" := Str(NeighbourOf(n.id, th)), "token" := Str(torrent[..2]), "nodes" := Str([])])
  }

  function OnPing(n: State, sender: string, m: Fields): (r: Outcome)
    ensures r != Crashed && r.n.table == n.table
  {
    match GetString(m, "t")
    case Err => Refused(n)
    case Ok(t) => Handled(Queue(n, sender, PongFor(n, t)))
  }

  function OnGetPeers(n: State, sender: string, m: Fields): (r: Outcome)
    requires IsId(n.id)
    ensures r != Crashed ==> r.n.table == n.table
  {
    var torrent := match GetMap(m, "a") case Err => Err case Ok(a) => GetString(a, "info_hash");
    var th := match torrent case Err => Err case Ok(s) => FromString(s);
    if th.Err? then Refused(n)
    else match GetString(m, "t")
      case Err => Crashed
      case Ok(t) => Handled(Queue(n, sender, PeersReplyFor(n, t, torrent.value, th.value)))
  }

  ghost function WithNode(r: Outcome, rn: Remote): (s: Outcome)
    requires r != Crashed ==> IsId(r.n.table.id) && r.n.table.max >= 1
  {
    match r
    case Handled(n) => Handled(AddNode(n, rn))
    case Refused(n) => Refused(AddNode(n, rn))
    case Crashed => Crashed
  }

  /** The id a query or a response claims for its sender. */
  function ClaimedId(m: Fields, key: string): (r: Result<seq<Byte>>)
    ensures r.Ok? ==> IsId(r.value)
  {
    var a :- GetMap(m, key);
    var id :- GetString(a, "id");
    FromString(id)
  }

  const PING: seq<Byte> := [0x70, 0x69, 0x6e, 0x67]
  const GET_PEERS: seq<Byte> := [0x67, 0x65, 0x74, 0x5f, 0x70, 0x65, 0x65, 0x72, 0x73]
  const ANNOUNCE_PEER: seq<Byte> :=
    [0x61, 0x6e, 0x6e, 0x6f, 0x75, 0x6e, 0x63, 0x65, 0x5f, 0x70, 0x65, 0x65, 0x72]
  const FIND_NODE: seq<Byte> := [0x66, 0x69, 0x6e, 0x64, 0x5f, 0x6e, 0x6f, 0x64, 0x65]

  ghost function HandleRequest(n: State, sender: string, m: Fields): (r: Outcome)
    requires IsId(n.id) && IsId(n.table.id) && n.table.max >= 1
  {
    var q, id := GetString(m, "q"), ClaimedId(m, "a");
    if q.Err? || id.Err? then Refused(n)
    else if id.value == n.id then Handled(n)
    else
      var rn := Remote(sender, id.value);
      if q.value == PING then WithNode(OnPing(n, sender, m), rn)
      else if q.value == GET_PEERS then WithNode(OnGetPeers(n, sender, m), rn)
      else if q.value == ANNOUNCE_PEER then Handled(AddNode(n, rn))
      else Handled(n)
  }

  predicate AllStrings(vs: seq<Value>) {
    forall i :: 0 <= i < |vs| ==> vs[i].Str?
  }

  ghost function HandleResponse(env: Env, n: State, sender: string, m: Fields): (r: Outcome)
    requires IsId(n.table.id) && n.table.max >= 1
  {
    var id := ClaimedId(m, "r");
    if id.Err? then Refused(n) else
      var r := GetMap(m, "r").value;
      var rn := Remote(sender, id.value);
      match GetString(r, "nodes")
      case Ok(nodes) =>
        Handled(AddNode(ProcessNodes(env, ProcessNodes(env, n, sender, nodes), sender, nodes), rn))
      case Err =>
        match GetList(r, "values")
        case Err => Handled(n)
        case Ok(vs) => if AllStrings(vs) then Handled(AddNode(n, rn)) else Crashed
  }

  function HandleError(n: State, m: Fields): (r: Outcome) {
    match GetList(m, "e")
    case Err => Refused(n)
    case Ok(e) =>
      if |e| != 2 then Refused(n)
      else if e[0].Int? && e[1].Str? then Handled(n) else Crashed
  }

  ghost function Handle(env: Env, n: State, sender: string, y: seq<Byte>, m: Fields): (r: Outcome)
    requires IsId(n.id) && IsId(n.table.id) && n.table.max >= 1
  {
    if y == [0x71] then HandleRequest(n, sender, m)
    else if y == [0x72] then HandleResponse(env, n, sender, m)
    else if y == [0x65] then HandleError(n, m)
    else Refused(n)
  }

  /** A refused packet puts its sender on the blacklist; Err stands for a panic. */
  ghost function ProcessPacket(env: Env, n: State, sender: string, data: Decoded): (r: Result<State>)
    requires IsId(n.id) && IsId(n.table.id) && n.table.max >= 1
  {
    if data.BadDict? then Ok(n) else
      match GetString(data.dict, "y")
      case Err => Ok(n)
      case Ok(y) =>
        if sender in n.blacklist then Ok(n) else
        match Handle(env, n, sender, y, data.dict)
        case Handled(n') => Ok(n')
        case Refused(n') => Ok(n'.(blacklist := n'.blacklist + {sender}))
        case Crashed => Err
  }

  /** Whether processing a packet returns an error, blacklisted senders included. */
  ghost predicate ReturnsError(env: Env, n: State, sender: string, data: Decoded)
    requires IsId(n.id) && IsId(n.table.id) && n.table.max >= 1
  {
    || data.BadDict? || GetString(data.dict, "y").Err? || sender in n.blacklist
    || Handle(env, n, sender, GetString(data.dict, "y").value, data.dict).Refused?
  }

  // ---------- neighbour rounds ----------

  function FindNodeMsg(env: Env, k: nat, claimed: seq<Byte>): (msg: Fields) {
    MakeQuery(env.random(k).0, FIND_NODE, map["id" := Str(claimed), "target" := Str(env.random(k).1)])
  }

  /** The query to node k of a round, if any: `rn.id` is overwritten before it is compared with our id. */
  function QueryTo(env: Env, id: seq<Byte>, k: nat, rn: Remote): (qs: seq<Sent>)
    requires IsId(id) && IsId(rn.id)
  {
    var claimed := NeighbourOf(id, rn.id);
    if claimed == id then [] else [Sent(rn.addr, FindNodeMsg(env, k, claimed))]
  }

  /** The queries one round sends. */
  function RoundQueries(env: Env, id: seq<Byte>, items: seq<Entry<Remote>>): (qs: seq<Sent>)
    requires IsId(id) && forall i :: 0 <= i < |items| ==> IsId(items[i].value.id)
  {
    if |items| == 0 then [] else
      var k := |items| - 1;
      RoundQueries(env, id, items[..k]) + QueryTo(env, id, k, items[k].value)
  }

  /** Bootstrap queries carry our own id; the routers have none, so none is skipped. */
  function Bootstrap(env: Env, id: seq<Byte>): (qs: seq<Sent>) {
    seq(|env.routers|, k requires 0 <= k < |env.routers| => Sent(env.routers[k], FindNodeMsg(env, k, id)))
  }

  ghost function Round(env: Env, n: State): (r: State)
    requires Valid(n)
  {
    if |n.table.items| == 0 then n.(out := n.out + Bootstrap(env, n.id)) else
      IdsInTable(n.table);
      n.(out := n.out + RoundQueries(env, n.id, n.table.items), table := Empty(n.table.id, n.table.max))
  }

  lemma IdsInTable(t: Table)
    requires RoutingTable.Valid(t)
    ensures forall i :: 0 <= i < |t.items| ==> IsId(t.items[i].value.id) && Fits(t.id, t.items[i])
  {
    forall i | 0 <= i < |t.items|
      ensures IsId(t.items[i].value.id) && Fits(t.id, t.items[i])
    {
      assert t.items[i] in multiset(t.items);
    }
  }
}
