/**
  What one received packet does (dht/node.go, dht/messages.go): the nodes it adds, the reply
  it is due, who is blacklisted, and when it makes a handler panic. All of it holds in any
  state a packet can meet, within a neighbour round or between rounds.
 */
module NodePackets {
  import opened Bytes
  import opened Results
  import opened Krpc
  import opened Infohash
  import opened Heap
  import opened RT = RoutingTable
  import opened Node
  import opened NodeLists

  /** A node whose table carries its id; nothing is said of the entries. */
  ghost predicate Ready(n: State) {
    IsId(n.id) && n.table.id == n.id && n.table.max >= 1
  }

  const QUERY: seq<Byte> := [0x71]
  const RESPONSE: seq<Byte> := [0x72]
  const ERROR: seq<Byte> := [0x65]

  // ---------- the table ----------

  /** A ping, a get_peers or an announce_peer. */
  predicate Understood(m: Fields) {
    || GetString(m, "q") == Ok([0x70, 0x69, 0x6e, 0x67])
    || GetString(m, "q") == Ok([0x67, 0x65, 0x74, 0x5f, 0x70, 0x65, 0x65, 0x72, 0x73])
    || GetString(m, "q") == Ok([0x61, 0x6e, 0x6e, 0x6f, 0x75, 0x6e, 0x63, 0x65, 0x5f, 0x70, 0x65, 0x65, 0x72])
  }

  function AddedByQuery(n: State, sender: string, m: Fields): (rns: seq<Remote>) {
    var id := ClaimedId(m, "a");
    if id.Ok? && id.value != n.id && Understood(m) then [Remote(sender, id.value)] else []
  }

  /** The listed nodes twice over, then the sender. */
  function AddedByResponse(env: Env, n: State, sender: string, m: Fields): (rns: seq<Remote>) {
    var id := ClaimedId(m, "r");
    if id.Err? then [] else
      var r := GetMap(m, "r").value;
      if GetString(r, "nodes").Ok? then
        var listed := Listed(env, n.family, GetString(r, "nodes").value);
        listed + listed + [Remote(sender, id.value)]
      else if GetList(r, "values").Ok? then [Remote(sender, id.value)]
      else []
  }

  /** The nodes a packet offers to the table, in order. */
  function Added(env: Env, n: State, sender: string, data: Decoded): (rns: seq<Remote>) {
    if data.BadDict? || sender in n.blacklist then []
    else if GetString(data.dict, "y") == Ok(QUERY) then AddedByQuery(n, sender, data.dict)
    else if GetString(data.dict, "y") == Ok(RESPONSE) then AddedByResponse(env, n, sender, data.dict)
    else []
  }

  lemma AddOneIsAdd(t: Table, rn: Remote)
    requires IsId(t.id) && t.max >= 1
    ensures AddAll(t, [rn]) == RT.Add(t, rn)
  {
    assert AddAll(t, []) == t;
    assert [rn][..0] == [];
  }

  lemma RequestAdds(n: State, sender: string, m: Fields)
    requires Ready(n) && HandleRequest(n, sender, m) != Crashed
    ensures var r := HandleRequest(n, sender, m).n;
            r.table == AddAll(n.table, AddedByQuery(n, sender, m)) && r.id == n.id && r.family == n.family
  {
    hide RT.Add, FromString, NeighbourOf;
    var id := ClaimedId(m, "a");
    if id.Ok? {
      AddOneIsAdd(n.table, Remote(sender, id.value));
    }
  }

  lemma ResponseAdds(env: Env, n: State, sender: string, m: Fields)
    requires Ready(n) && HandleResponse(env, n, sender, m) != Crashed
    ensures var r := HandleResponse(env, n, sender, m).n;
            r.table == AddAll(n.table, AddedByResponse(env, n, sender, m)) && r.id == n.id && r.family == n.family
  {
    hide RT.Add, FromString, ProcessNodes, Listed;
    var id := ClaimedId(m, "r");
    if id.Ok? {
      var rn := Remote(sender, id.value);
      AddOneIsAdd(n.table, rn);
      var nodes := GetString(GetMap(m, "r").value, "nodes");
      if nodes.Ok? {
        var listed := Listed(env, n.family, nodes.value);
        var once := ProcessNodes(env, n, sender, nodes.value);
        ProcessNodesAdds(env, n, sender, nodes.value);
        ProcessNodesAdds(env, once, sender, nodes.value);
        AddAllConcat(n.table, listed, listed);
        AddAllConcat(n.table, listed + listed, [rn]);
        AddOneIsAdd(AddAll(n.table, listed + listed), rn);
      }
    }
  }

  /** A packet adds those nodes to the table one by one and does nothing else to it. */
  lemma PacketAdds(env: Env, n: State, sender: string, data: Decoded)
    requires Ready(n) && ProcessPacket(env, n, sender, data).Ok?
    ensures var r := ProcessPacket(env, n, sender, data).value;
            r.table == AddAll(n.table, Added(env, n, sender, data)) && r.id == n.id && r.family == n.family
  {
    hide RT.Add, HandleRequest, HandleResponse, AddedByQuery, AddedByResponse;
    if data.Decoded? && GetString(data.dict, "y").Ok? && sender !in n.blacklist {
      if GetString(data.dict, "y").value == QUERY {
        RequestAdds(n, sender, data.dict);
      } else if GetString(data.dict, "y").value == RESPONSE {
        ResponseAdds(env, n, sender, data.dict);
      }
    }
  }

  /** Whoever introduces itself with a foreign id is in the table afterwards. */
  lemma SenderEnters(env: Env, n: State, sender: string, data: Decoded, id: seq<Byte>)
    requires Ready(n) && Structured(n.table) && |n.table.items| <= n.table.max && n.table.max >= 2
    requires data.Decoded? && sender !in n.blacklist && Introduces(data.dict, id) && id != n.id
    requires ProcessPacket(env, n, sender, data).Ok?
    ensures sender in ProcessPacket(env, n, sender, data).value.table.addresses
  {
    hide RT.Add, InStep, Ordered, Fits, FromString, Listed, ProcessPacket;
    var rns := Added(env, n, sender, data);
    var front := rns[..|rns| - 1];
    assert rns[|rns| - 1] == Remote(sender, id);
    PacketAdds(env, n, sender, data);
    AddAllStructured(n.table, front);
    AddedIsListed(AddAll(n.table, front), Remote(sender, id));
  }

  /** A query the node understands, or a response with nodes or peers in it. */
  predicate Introduces(m: Fields, id: seq<Byte>) {
    || (GetString(m, "y") == Ok(QUERY) && ClaimedId(m, "a") == Ok(id) && Understood(m))
    || (GetString(m, "y") == Ok(RESPONSE) && ClaimedId(m, "r") == Ok(id)
        && (GetString(GetMap(m, "r").value, "nodes").Ok? || GetList(GetMap(m, "r").value, "values").Ok?))
  }

  // ---------- panics ----------

  /** The info_hash of a get_peers query. */
  function Torrent(m: Fields): (r: Result<seq<Byte>>) {
    var a :- GetMap(m, "a");
    var text :- GetString(a, "info_hash");
    FromString(text)
  }

  /** A get_peers query that would be answered but carries no transaction id. */
  predicate QueryCrashes(n: State, m: Fields) {
    && GetString(m, "q") == Ok(GET_PEERS)
    && ClaimedId(m, "a").Ok? && ClaimedId(m, "a").value != n.id
    && Torrent(m).Ok? && GetString(m, "t").Err?
  }

  /** A response with peers, one of which is no string. */
  predicate ResponseCrashes(m: Fields) {
    && ClaimedId(m, "r").Ok?
    && var r := GetMap(m, "r").value;
    && GetString(r, "nodes").Err?
    && GetList(r, "values").Ok?
    && exists i :: 0 <= i < |GetList(r, "values").value| && !GetList(r, "values").value[i].Str?
  }

  /** An error of two parts that are not a code and a text. */
  predicate ErrorCrashes(m: Fields) {
    && GetList(m, "e").Ok?
    && var e := GetList(m, "e").value;
    && |e| == 2 && !(e[0].Int? && e[1].Str?)
  }

  predicate Crashing(n: State, sender: string, data: Decoded) {
    && data.Decoded? && sender !in n.blacklist
    && var m := data.dict;
    || (GetString(m, "y") == Ok(QUERY) && QueryCrashes(n, m))
    || (GetString(m, "y") == Ok(RESPONSE) && ResponseCrashes(m))
    || (GetString(m, "y") == Ok(ERROR) && ErrorCrashes(m))
  }

  /** A packet brings the node down exactly if it is one of these. */
  lemma PacketCrashesIff(env: Env, n: State, sender: string, data: Decoded)
    requires Ready(n)
    ensures ProcessPacket(env, n, sender, data).Err? <==> Crashing(n, sender, data)
  {
    hide RT.Add, FromString, NeighbourOf, ProcessNodes;
  }

  /** A packet whose fields have the types KRPC gives them. */
  predicate WellTyped(m: Fields) {
    && GetString(m, "t").Ok?
    && (GetMap(m, "r").Ok? && GetList(GetMap(m, "r").value, "values").Ok? ==>
          AllStrings(GetList(GetMap(m, "r").value, "values").value))
    && (GetList(m, "e").Ok? && |GetList(m, "e").value| == 2 ==>
          GetList(m, "e").value[0].Int? && GetList(m, "e").value[1].Str?)
  }

  lemma WellTypedIsHandled(env: Env, n: State, sender: string, data: Decoded)
    requires Ready(n) && (data.BadDict? || WellTyped(data.dict))
    ensures ProcessPacket(env, n, sender, data).Ok?
  {
    hide ProcessPacket, FromString;
    PacketCrashesIff(env, n, sender, data);
  }

  /** One such packet for any node: an error whose code is a string. */
  function BadError(): (data: Decoded) {
    Decoded(map["y" := Str(ERROR), "e" := List([Str([]), Str([])])], 0)
  }

  /** Another: a get_peers query without a transaction id. */
  function BareGetPeers(id: seq<Byte>): (data: Decoded) {
    Decoded(map["y" := Str(QUERY), "q" := Str(GET_PEERS), "a" := Dict(map["id" := Str(id), "info_hash" := Str(id)])], 0)
  }

  lemma SomePacketsCrash(env: Env, n: State, sender: string, id: seq<Byte>)
    requires Ready(n) && sender !in n.blacklist && IsId(id) && id != n.id
    ensures ProcessPacket(env, n, sender, BadError()).Err?
    ensures ProcessPacket(env, n, sender, BareGetPeers(id)).Err?
  {
    IdTextRoundTrip(id);
    PacketCrashesIff(env, n, sender, BadError());
    PacketCrashesIff(env, n, sender, BareGetPeers(id));
  }

  // ---------- replies ----------

  function IsReply(s: Sent): (b: bool) {
    "y" in s.msg && s.msg["y"] == Str(RESPONSE)
  }

  /** A query that deserves an answer: from a sender in good standing that is not ourselves. */
  predicate Proper(n: State, sender: string, m: Fields) {
    && GetString(m, "y") == Ok(QUERY) && sender !in n.blacklist
    && GetString(m, "q").Ok? && GetString(m, "t").Ok?
    && ClaimedId(m, "a").Ok? && ClaimedId(m, "a").value != n.id
  }

  /** The reply a packet is due, if any. */
  function Due(n: State, sender: string, data: Decoded): (r: seq<Sent>)
    requires IsId(n.id)
    ensures |r| <= 1
  {
    if data.BadDict? || !Proper(n, sender, data.dict) then [] else
      var m := data.dict;
      var q, t := GetString(m, "q").value, GetString(m, "t").value;
      if q == PING then [Sent(sender, PongFor(n, t))]
      else if q == GET_PEERS then
        match Torrent(m)
        case Err => []
        case Ok(th) => [Sent(sender, PeersReplyFor(n, t, GetString(GetMap(m, "a").value, "info_hash").value, th))]
      else []
  }

  // ---------- packets by their fields ----------

  predicate HasText(m: Fields, key: string) {
    key in m && m[key].Str?
  }

  predicate Says(m: Fields, key: string, text: seq<Byte>) {
    key in m && m[key] == Str(text)
  }

  predicate HasFields(m: Fields, key: string) {
    key in m && m[key].Dict?
  }

  /** A dictionary with an id, raw or hexadecimal, in its field. */
  predicate HoldsId(m: Fields, key: string) {
    HasText(m, key) && FromString(m[key].bytes).Ok?
  }

  function IdIn(m: Fields, key: string): (id: seq<Byte>)
    requires HoldsId(m, key)
    ensures IsId(id)
  {
    FromString(m[key].bytes).value
  }

  /** The sender claims an id, in the arguments of a query or the results of a response. */
  predicate Claims(m: Fields, key: string) {
    HasFields(m, key) && HoldsId(m[key].fields, "id")
  }

  lemma ClaimsIff(m: Fields, key: string)
    ensures ClaimedId(m, key).Ok? <==> Claims(m, key)
    ensures Claims(m, key) ==> ClaimedId(m, key) == Ok(IdIn(m[key].fields, "id"))
  {
  }

  predicate SaysPing(m: Fields) {
    Says(m, "q", [0x70, 0x69, 0x6e, 0x67])
  }

  predicate SaysGetPeers(m: Fields) {
    Says(m, "q", [0x67, 0x65, 0x74, 0x5f, 0x70, 0x65, 0x65, 0x72, 0x73])
  }

  /** A query from a sender in good standing that claims an id and not ours. */
  predicate Asks(n: State, sender: string, data: Decoded) {
    && data.Decoded? && sender !in n.blacklist
    && var m := data.dict;
    && Says(m, "y", [0x71]) && Claims(m, "a") && IdIn(m["a"].fields, "id") != n.id
  }

  function Pong(n: State, t: Value): (msg: Fields) {
    map["t" := t, "y" := Str([0x72]), "r" := Dict(map["id" := Str(n.id)])]
  }

  /** The answer to get_peers: an id near the torrent, a token out of its text and no nodes. */
  function NoPeers(n: State, t: Value, torrent: seq<Byte>, text: seq<Byte>): (msg: Fields)
    requires IsId(n.id) && IsId(torrent) && |text| >= 2
  {
    map["t" := t, "y" := Str([0x72]),
        "r" := Dict(map["id" := Str(torrent[..10] + n.id[10..]), "token" := Str(text[..2]), "nodes" := Str([])])]
  }

  /**
    Which packets are due a reply, to whom it goes, and every field of it. The id claimed
    shares 80 bits with the torrent.
   */
  lemma DueAnswers(n: State, sender: string, data: Decoded)
    requires IsId(n.id)
    ensures var due := Due(n, sender, data);
            if Asks(n, sender, data) && SaysPing(data.dict) && HasText(data.dict, "t") then
              due == [Sent(sender, Pong(n, data.dict["t"]))]
            else if Asks(n, sender, data) && SaysGetPeers(data.dict) && HasText(data.dict, "t")
                    && HoldsId(data.dict["a"].fields, "info_hash") then
              var a := data.dict["a"].fields;
              var torrent := IdIn(a, "info_hash");
              && |a["info_hash"].bytes| >= 2
              && due == [Sent(sender, NoPeers(n, data.dict["t"], torrent, a["info_hash"].bytes))]
              && CommonPrefix(torrent, torrent[..10] + n.id[10..]) >= 80
            else due == []
  {
    hide FromString, CommonPrefix;
    if data.Decoded? {
      var m := data.dict;
      ClaimsIff(m, "a");
      if HasFields(m, "a") && HoldsId(m["a"].fields, "info_hash") {
        assert Torrent(m) == Ok(IdIn(m["a"].fields, "info_hash"));
        TextLength(m["a"].fields["info_hash"].bytes);
        NeighbourDistance(n.id, IdIn(m["a"].fields, "info_hash"));
      }
    }
  }

  lemma TextLength(text: seq<Byte>)
    requires FromString(text).Ok?
    ensures |text| >= 20
  {
  }

  lemma RequestQueuesDue(n: State, sender: string, m: Fields)
    requires Ready(n) && GetString(m, "y") == Ok(QUERY) && sender !in n.blacklist
    requires HandleRequest(n, sender, m) != Crashed
    ensures HandleRequest(n, sender, m).n.out == n.out + Due(n, sender, Decoded(m, 0))
  {
    hide RT.Add, FromString, NeighbourOf;
    assert n.out + [] == n.out;
  }

  lemma ResponseQueuesNothing(env: Env, n: State, sender: string, m: Fields)
    requires Ready(n) && HandleResponse(env, n, sender, m) != Crashed
    ensures HandleResponse(env, n, sender, m).n.out == n.out
  {
    hide RT.Add, FromString;
  }

  /** A packet queues the reply it is due and nothing else. */
  lemma PacketQueuesDue(env: Env, n: State, sender: string, data: Decoded)
    requires Ready(n) && ProcessPacket(env, n, sender, data).Ok?
    ensures ProcessPacket(env, n, sender, data).value.out == n.out + Due(n, sender, data)
  {
    hide RT.Add, HandleRequest, HandleResponse;
    assert n.out + [] == n.out;
    if data.Decoded? && sender !in n.blacklist {
      var y := GetString(data.dict, "y");
      if y == Ok(QUERY) {
        RequestQueuesDue(n, sender, data.dict);
      } else if y == Ok(RESPONSE) {
        ResponseQueuesNothing(env, n, sender, data.dict);
      }
    }
  }

  lemma DueAreReplies(n: State, sender: string, data: Decoded)
    requires IsId(n.id)
    ensures forall i :: 0 <= i < |Due(n, sender, data)| ==> IsReply(Due(n, sender, data)[i])
  {
    hide Due, Asks, HoldsId;
    DueAnswers(n, sender, data);
  }

  // ---------- the blacklist ----------

  /** Packets of a blacklisted sender change nothing, and a packet blacklists no one but its sender. */
  lemma BlacklistEffect(env: Env, n: State, sender: string, data: Decoded)
    requires Ready(n) && ProcessPacket(env, n, sender, data).Ok?
    ensures var r := ProcessPacket(env, n, sender, data).value;
            && (sender in n.blacklist ==> r == n)
            && n.blacklist <= r.blacklist <= n.blacklist + {sender}
  {
    hide RT.Add, FromString, NeighbourOf, AddRecords;
  }

  /** A query or a response without a usable id leaves its sender blacklisted and the rest as it was. */
  lemma NoIdIsRefused(env: Env, n: State, sender: string, m: Fields, end: int)
    requires Ready(n) && sender !in n.blacklist
    requires || (GetString(m, "y") == Ok(QUERY) && (GetString(m, "q").Err? || ClaimedId(m, "a").Err?))
             || (GetString(m, "y") == Ok(RESPONSE) && ClaimedId(m, "r").Err?)
    ensures ProcessPacket(env, n, sender, Decoded(m, end)) == Ok(n.(blacklist := n.blacklist + {sender}))
  {
    hide RT.Add, FromString;
  }

  /** A query whose handler returns an error. */
  predicate QueryRefused(n: State, m: Fields) {
    || !HasText(m, "q") || !Claims(m, "a")
    || (IdIn(m["a"].fields, "id") != n.id && SaysPing(m) && !HasText(m, "t"))
    || (IdIn(m["a"].fields, "id") != n.id && SaysGetPeers(m) && !HoldsId(m["a"].fields, "info_hash"))
  }

  /** A packet whose handler returns an error. */
  predicate Refusable(n: State, m: Fields) {
    && HasText(m, "y")
    && if Says(m, "y", [0x71]) then QueryRefused(n, m)
       else if Says(m, "y", [0x72]) then !Claims(m, "r")
       else if Says(m, "y", [0x65]) then !("e" in m && m["e"].List? && |m["e"].vs| == 2)
       else true
  }

  /** A response with a node list that is no sequence of records of 26 bytes, or 38 for IPv6. */
  predicate BadList(n: State, m: Fields) {
    && Says(m, "y", [0x72]) && Claims(m, "r")
    && HasText(m["r"].fields, "nodes")
    && |m["r"].fields["nodes"].bytes| % (if n.family == UDP6 then 38 else 26) != 0
  }

  lemma RequestRefusedIff(n: State, sender: string, m: Fields)
    requires Ready(n)
    ensures HandleRequest(n, sender, m).Refused? <==> QueryRefused(n, m)
    ensures HandleRequest(n, sender, m) != Crashed ==> HandleRequest(n, sender, m).n.blacklist == n.blacklist
  {
    hide RT.Add, FromString, NeighbourOf;
  }

  lemma ResponseRefusedIff(env: Env, n: State, sender: string, m: Fields)
    requires Ready(n) && Says(m, "y", [0x72])
    ensures HandleResponse(env, n, sender, m).Refused? <==> !Claims(m, "r")
    ensures HandleResponse(env, n, sender, m) != Crashed ==>
              HandleResponse(env, n, sender, m).n.blacklist == n.blacklist + if BadList(n, m) then {sender} else {}
  {
    hide RT.Add, FromString, AddRecords;
    assert n.blacklist + {} == n.blacklist;
  }

  /** An error is returned exactly for these packets and for those that are not looked into. */
  lemma ErrorIff(env: Env, n: State, sender: string, data: Decoded)
    requires Ready(n)
    ensures ReturnsError(env, n, sender, data) <==>
              || data.BadDict? || !HasText(data.dict, "y") || sender in n.blacklist
              || Refusable(n, data.dict)
  {
    hide HandleRequest, HandleResponse, QueryRefused, Claims;
    if data.Decoded? {
      RequestRefusedIff(n, sender, data.dict);
      if Says(data.dict, "y", [0x72]) {
        ResponseRefusedIff(env, n, sender, data.dict);
      }
    }
  }

  /** A packet blacklists its sender exactly if its handler returns an error or its node list is bad. */
  lemma BlacklistIff(env: Env, n: State, sender: string, data: Decoded)
    requires Ready(n) && sender !in n.blacklist && ProcessPacket(env, n, sender, data).Ok?
    ensures var r := ProcessPacket(env, n, sender, data).value;
            r.blacklist == n.blacklist
              + if data.Decoded? && (Refusable(n, data.dict) || BadList(n, data.dict)) then {sender} else {}
  {
    hide HandleRequest, HandleResponse, QueryRefused, BadList, Claims;
    assert n.blacklist + {} == n.blacklist;
    if data.Decoded? {
      NoListOtherwise(n, data.dict);
      RequestRefusedIff(n, sender, data.dict);
      if Says(data.dict, "y", [0x72]) {
        ResponseRefusedIff(env, n, sender, data.dict);
      }
    }
  }

  lemma NoListOtherwise(n: State, m: Fields)
    ensures BadList(n, m) ==> Says(m, "y", [0x72]) && Claims(m, "r")
  {
  }
}
