/**
  Node lists in responses (dht/node.go, dht/messages.go): what a list names, what one pass
  over it does to the table, and when the second pass that the program makes is idle.
 */
module NodeLists {
  import opened Bytes
  import opened Results
  import opened Infohash
  import opened CompactAddr
  import opened Heap
  import opened RT = RoutingTable
  import opened Node

  /** The nodes that records name, in order; records that do not resolve name none. */
  function Named(env: Env, family: Family, rs: seq<seq<Byte>>): (rns: seq<Remote>)
    requires forall i :: 0 <= i < |rs| ==> |rs[i]| >= 20
  {
    if |rs| == 0 then [] else
      var r := ReadRecord(env, family, rs[|rs| - 1]);
      Named(env, family, rs[..|rs| - 1]) + if r.Ok? then [r.value] else []
  }

  /** The nodes a list names; a list of the wrong length names none. */
  function Listed(env: Env, family: Family, list: seq<Byte>): (rns: seq<Remote>) {
    var k := NodeLength(family);
    if |list| % k != 0 then [] else Named(env, family, Records(list, k))
  }

  lemma {:induction false} AddRecordsIsAddAll(env: Env, family: Family, t: Table, rs: seq<seq<Byte>>)
    requires IsId(t.id) && t.max >= 1 && forall i :: 0 <= i < |rs| ==> |rs[i]| >= 20
    ensures AddRecords(env, family, t, rs) == AddAll(t, Named(env, family, rs))
  {
    hide RT.Add, ReadRecord;
    if |rs| > 0 {
      AddRecordsIsAddAll(env, family, t, rs[..|rs| - 1]);
      var r := ReadRecord(env, family, rs[|rs| - 1]);
      var front := Named(env, family, rs[..|rs| - 1]);
      if r.Ok? {
        assert (front + [r.value])[..|front|] == front;
      } else {
        assert front + [] == front;
      }
    }
  }

  /** Handling a list adds the nodes it names, and blacklists the sender of a wrong length. */
  lemma ProcessNodesAdds(env: Env, n: State, sender: string, list: seq<Byte>)
    requires IsId(n.table.id) && n.table.max >= 1
    ensures ProcessNodes(env, n, sender, list)
            == n.(table := AddAll(n.table, Listed(env, n.family, list)),
                  blacklist := n.blacklist + if |list| % NodeLength(n.family) != 0 then {sender} else {})
  {
    var k := NodeLength(n.family);
    if |list| % k == 0 {
      AddRecordsIsAddAll(env, n.family, n.table, Records(list, k));
    }
    assert n.blacklist + {} == n.blacklist;
  }

  ghost predicate Whole(rs: seq<seq<Byte>>, k: nat) {
    forall i :: 0 <= i < |rs| ==> |rs[i]| == k
  }

  /** What is no concatenation of records changes no table and blacklists its sender. */
  lemma OnlyRecordListsCount(env: Env, n: State, sender: string, list: seq<Byte>)
    requires IsId(n.table.id) && n.table.max >= 1
    ensures var r := ProcessNodes(env, n, sender, list);
            || (exists rs :: Whole(rs, NodeLength(n.family)) && Flatten(rs) == list)
            || (r.table == n.table && sender in r.blacklist)
  {
    var k := NodeLength(n.family);
    if |list| % k == 0 {
      FlattenOfRecords(list, k);
      assert Whole(Records(list, k), k);
    }
  }

  // ---------- one pass ----------

  /** The addresses of the nodes worth keeping among some. */
  ghost function Worthy(t: Table, rns: seq<Remote>): (addrs: set<string>) {
    if |rns| == 0 then {} else
      var rn := rns[|rns| - 1];
      Worthy(t, rns[..|rns| - 1]) + if Eligible(t, rn) then {rn.addr} else {}
  }

  lemma {:induction false} WorthyIff(t: Table, rns: seq<Remote>, a: string)
    ensures a in Worthy(t, rns) <==> exists i :: 0 <= i < |rns| && Eligible(t, rns[i]) && rns[i].addr == a
  {
    if |rns| > 0 {
      var front := rns[..|rns| - 1];
      WorthyIff(t, front, a);
      if a in Worthy(t, front) {
        var i :| 0 <= i < |front| && Eligible(t, front[i]) && front[i].addr == a;
        assert rns[i] == front[i];
      }
      if i :| 0 <= i < |rns| && Eligible(t, rns[i]) && rns[i].addr == a {
        assert i < |front| ==> front[i] == rns[i];
      }
    }
  }

  lemma SubsetSize<T>(a: set<T>, b: set<T>)
    requires a <= b
    ensures |a| <= |b|
  {
    assert b == a + (b - a);
  }

  lemma UnionSize<T>(a: set<T>, b: set<T>)
    ensures |a + b| <= |a| + |b|
  {
    assert a + b == a + (b - a);
    SubsetSize(b - a, b);
  }

  lemma AddWithRoom(t: Table, rn: Remote, all: set<string>)
    requires RT.Valid(t) && t.addresses <= all && |all| <= t.max
    requires Eligible(t, rn) ==> rn.addr in all
    ensures RT.Add(t, rn).addresses == t.addresses + if Eligible(t, rn) then {rn.addr} else {}
  {
    hide RT.Add, InStep, Ordered, Fits;
    SizesAgree(multiset(t.items), t.addresses);
    if Accepts(t, rn) {
      SubsetSize(t.addresses + {rn.addr}, all);
      AddToRoom(t, rn);
    } else {
      AddRejected(t, rn);
    }
  }

  /** If all addresses fit, one pass ends with the old addresses and the new ones. */
  lemma {:induction false} PassWithRoom(t: Table, rns: seq<Remote>)
    requires RT.Valid(t) && |t.addresses + Worthy(t, rns)| <= t.max
    ensures AddAll(t, rns).addresses == t.addresses + Worthy(t, rns)
  {
    hide RT.Add, InStep, Ordered, Fits;
    if |rns| > 0 {
      var front, last := rns[..|rns| - 1], rns[|rns| - 1];
      var all := t.addresses + Worthy(t, rns);
      SubsetSize(t.addresses + Worthy(t, front), all);
      PassWithRoom(t, front);
      AddAllValid(t, front);
      AddWithRoom(AddAll(t, front), last, all);
    }
  }

  /** One pass over a list keeps every old and every new address exactly if all of them fit. */
  lemma PassKeepsAllIffRoom(env: Env, n: State, sender: string, list: seq<Byte>)
    requires Node.Valid(n)
    ensures var all := n.table.addresses + Worthy(n.table, Listed(env, n.family, list));
            ProcessNodes(env, n, sender, list).table.addresses == all <==> |all| <= n.table.max
  {
    hide InStep, Ordered, Fits, Worthy, AddAll, ProcessNodes, Listed;
    var rns := Listed(env, n.family, list);
    var u := AddAll(n.table, rns);
    ProcessNodesAdds(env, n, sender, list);
    AddAllValid(n.table, rns);
    SizesAgree(multiset(u.items), u.addresses);
    if |n.table.addresses + Worthy(n.table, rns)| <= n.table.max {
      PassWithRoom(n.table, rns);
    }
  }

  /** The list written from (id, address) pairs. */
  function PairRecords(pairs: seq<(seq<Byte>, seq<Byte>)>, family: Family): (rs: seq<seq<Byte>>)
    requires forall i :: 0 <= i < |pairs| ==> |pairs[i].0| == 20 && 20 + |pairs[i].1| == NodeLength(family)
    ensures |rs| == |pairs| && forall i :: 0 <= i < |rs| ==> |rs[i]| == NodeLength(family)
  {
    seq(|pairs|, i requires 0 <= i < |pairs| => pairs[i].0 + pairs[i].1)
  }

  /** The node a pair names, through the resolver. */
  function PairNode(env: Env, family: Family, id: seq<Byte>, c: seq<Byte>): (r: Result<Remote>) {
    match env.resolve(family, DecodeCompactNodeAddr(c, env.print6))
    case Err => Err
    case Ok(addr) => if addr.port == 0 then Err else Ok(Remote(addr.text, id))
  }

  lemma PairRead(env: Env, family: Family, id: seq<Byte>, c: seq<Byte>)
    requires IsId(id)
    ensures ReadRecord(env, family, id + c) == PairNode(env, family, id, c)
  {
    hide DecodeCompactNodeAddr;
    assert (id + c)[..20] == id && (id + c)[20..] == c;
  }

  lemma {:induction false} NamedMember(env: Env, family: Family, rs: seq<seq<Byte>>, i: nat)
    requires i < |rs| && forall j :: 0 <= j < |rs| ==> |rs[j]| >= 20
    requires ReadRecord(env, family, rs[i]).Ok?
    ensures ReadRecord(env, family, rs[i]).value in Named(env, family, rs)
  {
    hide ReadRecord;
    if i < |rs| - 1 {
      NamedMember(env, family, rs[..|rs| - 1], i);
    }
  }

  /**
    A list written from pairs, of either family, is read as those pairs: with room for all,
    every pair with a foreign id, whose address resolves and has a port, is in the table.
   */
  lemma ListedNodesEnter(env: Env, n: State, sender: string, pairs: seq<(seq<Byte>, seq<Byte>)>, i: nat)
    requires Node.Valid(n) && i < |pairs|
    requires forall j :: 0 <= j < |pairs| ==> |pairs[j].0| == 20 && 20 + |pairs[j].1| == NodeLength(n.family)
    requires var list := Flatten(PairRecords(pairs, n.family));
             |n.table.addresses + Worthy(n.table, Listed(env, n.family, list))| <= n.table.max
    ensures var r := ProcessNodes(env, n, sender, Flatten(PairRecords(pairs, n.family)));
            var rn := PairNode(env, n.family, pairs[i].0, pairs[i].1);
            pairs[i].0 != n.id && rn.Ok? ==> rn.value.addr in r.table.addresses
  {
    hide ReadRecord, InStep, Ordered, Fits, Worthy, AddAll, ProcessNodes, Named, Records, Flatten;
    var rs := PairRecords(pairs, n.family);
    var list := Flatten(rs);
    RecordsOfFlatten(rs, NodeLength(n.family));
    ModUnique(|list|, NodeLength(n.family), |rs|, 0);
    ProcessNodesAdds(env, n, sender, list);
    PassWithRoom(n.table, Listed(env, n.family, list));
    PairRead(env, n.family, pairs[i].0, pairs[i].1);
    if PairNode(env, n.family, pairs[i].0, pairs[i].1).Ok? {
      var rn := PairNode(env, n.family, pairs[i].0, pairs[i].1).value;
      NamedMember(env, n.family, rs, i);
      WorthyIff(n.table, Listed(env, n.family, list), rn.addr);
    }
  }

  // ---------- two passes ----------

  lemma {:induction false} KnownChangeNothing(t: Table, rns: seq<Remote>)
    requires IsId(t.id) && t.max >= 1
    requires forall i :: 0 <= i < |rns| ==> RT.Add(t, rns[i]) == t
    ensures AddAll(t, rns) == t
  {
    hide RT.Add;
    if |rns| > 0 {
      var front := rns[..|rns| - 1];
      assert forall i :: 0 <= i < |front| ==> front[i] == rns[i];
      KnownChangeNothing(t, front);
    }
  }

  /** With room for all, nothing is left for a second pass. */
  lemma TwicePassWithRoom(t: Table, rns: seq<Remote>)
    requires RT.Valid(t) && |t.addresses + Worthy(t, rns)| <= t.max
    ensures AddAll(AddAll(t, rns), rns) == AddAll(t, rns)
  {
    hide RT.Add, InStep, Ordered, Fits, Worthy;
    var u := AddAll(t, rns);
    PassWithRoom(t, rns);
    forall i | 0 <= i < |rns|
      ensures RT.Add(u, rns[i]) == u
    {
      WorthyIff(t, rns, rns[i].addr);
      AddRejected(u, rns[i]);
    }
    KnownChangeNothing(u, rns);
  }

  /** With one worthy address, a pass lists it or changes nothing at all. */
  lemma {:induction false} OneAddressPass(t: Table, rns: seq<Remote>, a: string)
    requires RT.Valid(t) && forall i :: 0 <= i < |rns| ==> Eligible(t, rns[i]) ==> rns[i].addr == a
    ensures a in AddAll(t, rns).addresses
            || (AddAll(t, rns) == t && forall i :: 0 <= i < |rns| ==> RT.Add(t, rns[i]) == t)
  {
    hide RT.Add, InStep, Ordered, Fits;
    if |rns| > 0 {
      var front, last := rns[..|rns| - 1], rns[|rns| - 1];
      assert forall i :: 0 <= i < |front| ==> front[i] == rns[i];
      OneAddressPass(t, front, a);
      AddAllValid(t, front);
      var before := AddAll(t, front);
      if Accepts(before, last) {
        AddListsOrKeeps(before, last);
      } else {
        AddRejected(before, last);
      }
    }
  }

  lemma TwicePassOneAddress(t: Table, rns: seq<Remote>)
    requires RT.Valid(t) && |Worthy(t, rns)| <= 1
    ensures AddAll(AddAll(t, rns), rns) == AddAll(t, rns)
  {
    hide RT.Add, InStep, Ordered, Fits, Worthy, AddAll;
    var u := AddAll(t, rns);
    var a := if x :| x in Worthy(t, rns) then x else "";
    forall i | 0 <= i < |rns| && Eligible(t, rns[i])
      ensures rns[i].addr == a
    {
      WorthyIff(t, rns, rns[i].addr);
      AtMostOne(Worthy(t, rns), rns[i].addr, a);
    }
    OneAddressPass(t, rns, a);
    if a in u.addresses {
      forall i | 0 <= i < |rns|
        ensures RT.Add(u, rns[i]) == u
      {
        AddRejected(u, rns[i]);
      }
    }
    KnownChangeNothing(u, rns);
  }

  lemma AtMostOne<T>(s: set<T>, x: T, y: T)
    requires |s| <= 1 && x in s && y in s
    ensures x == y
  {
    SubsetSize({x, y}, s);
  }

  /**
    Handling a node list twice is the same as handling it once when the addresses in the
    table and the worthy ones in the list fit together, or when only one is worthy.
   */
  lemma DoublePassIsSingle(env: Env, n: State, sender: string, list: seq<Byte>)
    requires Node.Valid(n)
    requires var worthy := Worthy(n.table, Listed(env, n.family, list));
             |n.table.addresses + worthy| <= n.table.max || |worthy| <= 1
    ensures var once := ProcessNodes(env, n, sender, list);
            ProcessNodes(env, once, sender, list) == once
  {
    hide InStep, Ordered, Fits, Worthy, AddAll, ProcessNodes, Listed;
    var rns := Listed(env, n.family, list);
    var once := ProcessNodes(env, n, sender, list);
    ProcessNodesAdds(env, n, sender, list);
    ProcessNodesAdds(env, once, sender, list);
    if |Worthy(n.table, rns)| <= 1 {
      TwicePassOneAddress(n.table, rns);
    } else {
      TwicePassWithRoom(n.table, rns);
    }
    assert once.blacklist == once.blacklist + {} == (once.blacklist + once.blacklist);
  }

  lemma {:induction false} WorthyAtMostOneEach(t: Table, rns: seq<Remote>)
    ensures |Worthy(t, rns)| <= |rns|
  {
    if |rns| > 0 {
      WorthyAtMostOneEach(t, rns[..|rns| - 1]);
    }
  }

  lemma {:induction false} NamedAtMostOneEach(env: Env, family: Family, rs: seq<seq<Byte>>)
    requires forall i :: 0 <= i < |rs| ==> |rs[i]| >= 20
    ensures |Named(env, family, rs)| <= |rs|
  {
    hide ReadRecord;
    if |rs| > 0 {
      NamedAtMostOneEach(env, family, rs[..|rs| - 1]);
    }
  }

  /** In particular when the table has as many free places as the list has records. */
  lemma DoublePassWithFreePlaces(env: Env, n: State, sender: string, list: seq<Byte>)
    requires Node.Valid(n) && |n.table.items| + |Records(list, NodeLength(n.family))| <= n.table.max
    ensures var once := ProcessNodes(env, n, sender, list);
            ProcessNodes(env, once, sender, list) == once
  {
    hide InStep, Ordered, Fits, ProcessNodes, Named, Worthy, Records;
    var t, rns := n.table, Listed(env, n.family, list);
    SizesAgree(multiset(t.items), t.addresses);
    NamedAtMostOneEach(env, n.family, Records(list, NodeLength(n.family)));
    WorthyAtMostOneEach(t, rns);
    UnionSize(t.addresses, Worthy(t, rns));
    DoublePassIsSingle(env, n, sender, list);
  }
}
