/**
  Exactly when two passes over a node list always equal one, by the numbers of addresses
  involved: for every other combination this module writes a table and an IPv4 node list
  for which they differ (dht/node.go, dht/messages.go).
 */
module DoublePassCounts {
  import opened Bytes
  import opened Results
  import opened Infohash
  import opened CompactAddr
  import opened Framing
  import opened Heap
  import opened RT = RoutingTable
  import opened Node
  import opened NodeLists

  // ---------- IPv4 addresses by number ----------

  /** How many IPv4 addresses with a port other than 0 there are. */
  const ADDRESS_COUNT: nat := 65535 * 0x1_0000_0000

  /** A resolver that takes dotted quads at their word. */
  ghost predicate Literal4(env: Env) {
    forall c: seq<Byte> :: |c| == 6 ==>
      env.resolve(UDP4, DecodeCompactNodeAddr(c, env.print6))
      == Ok(UdpAddr(DecodeCompactNodeAddr(c, env.print6), Port(c[4], c[5])))
  }

  /** The i-th compact address, all ports of all hosts in turn. */
  function Compact(i: nat): (c: seq<Byte>)
    requires i < ADDRESS_COUNT
    ensures |c| == 6
  {
    ToBytes(i % 0x1_0000_0000, 4) + ToBytes(i / 0x1_0000_0000 + 1, 2)
  }

  lemma HoldsTwoBytes(m: nat)
    requires m < 65536
    ensures BigEndian(ToBytes(m, 2)) == m
  {
    hide BigEndian, ToBytes;
    ReadToBytes(m, 2);
    Pow2Table();
    Pow2Add(8, 8);
    assert 8 * 2 == 8 + 8;
  }

  lemma CompactInjective(i: nat, j: nat)
    requires i < ADDRESS_COUNT && j < ADDRESS_COUNT && Compact(i) == Compact(j)
    ensures i == j
  {
    hide BigEndian, ToBytes;
    assert Compact(i)[..4] == ToBytes(i % 0x1_0000_0000, 4) && Compact(j)[..4] == ToBytes(j % 0x1_0000_0000, 4);
    assert Compact(i)[4..] == ToBytes(i / 0x1_0000_0000 + 1, 2) && Compact(j)[4..] == ToBytes(j / 0x1_0000_0000 + 1, 2);
    HoldsFourBytes(i % 0x1_0000_0000);
    HoldsFourBytes(j % 0x1_0000_0000);
    HoldsTwoBytes(i / 0x1_0000_0000 + 1);
    HoldsTwoBytes(j / 0x1_0000_0000 + 1);
  }

  lemma NonZeroPort(hi: Byte, lo: Byte)
    requires BigEndian([hi, lo]) != 0
    ensures Port(hi, lo) != 0
  {
    if hi == 0 && lo == 0 {
      ZeroesDenoteZero([hi, lo]);
    }
  }

  lemma CompactHasPort(i: nat)
    requires i < ADDRESS_COUNT
    ensures Port(Compact(i)[4], Compact(i)[5]) != 0
  {
    hide BigEndian, ToBytes, Port;
    var c := Compact(i);
    assert [c[4], c[5]] == ToBytes(i / 0x1_0000_0000 + 1, 2);
    HoldsTwoBytes(i / 0x1_0000_0000 + 1);
    NonZeroPort(c[4], c[5]);
  }

  function Text(env: Env, i: nat): (s: string)
    requires i < ADDRESS_COUNT
  {
    DecodeCompactNodeAddr(Compact(i), env.print6)
  }

  lemma TextInjective(env: Env, i: nat, j: nat)
    requires i < ADDRESS_COUNT && j < ADDRESS_COUNT && Text(env, i) == Text(env, j)
    ensures i == j
  {
    hide DecodeCompactNodeAddr, Compact;
    CompactTextInjective(Compact(i), Compact(j), env.print6);
    CompactInjective(i, j);
  }

  ghost function Texts(env: Env, w: nat): (s: set<string>)
    requires w <= ADDRESS_COUNT
  {
    set i | 0 <= i < w :: Text(env, i)
  }

  lemma {:induction false} TextsSize(env: Env, w: nat)
    requires w <= ADDRESS_COUNT
    ensures |Texts(env, w)| == w
  {
    hide Text;
    if w > 0 {
      TextsSize(env, w - 1);
      if Text(env, w - 1) in Texts(env, w - 1) {
        var i :| 0 <= i < w - 1 && Text(env, i) == Text(env, w - 1);
        TextInjective(env, i, w - 1);
      }
      assert Texts(env, w) == Texts(env, w - 1) + {Text(env, w - 1)};
    }
  }

  // ---------- lists by design ----------

  /** The address number and the shared prefix of each node of a list. */
  type Design = seq<(nat, nat)>

  predicate Writable(d: Design) {
    forall j :: 0 <= j < |d| ==> d[j].0 < ADDRESS_COUNT && d[j].1 < 8
  }

  function Nodes(env: Env, id: seq<Byte>, d: Design): (rns: seq<Remote>)
    requires |id| == 20 && Writable(d)
    ensures |rns| == |d|
  {
    seq(|d|, j requires 0 <= j < |d| => Remote(Text(env, d[j].0), FlipTop(id, d[j].1)))
  }

  function Pairs(id: seq<Byte>, d: Design): (ps: seq<(seq<Byte>, seq<Byte>)>)
    requires |id| == 20 && Writable(d)
    ensures |ps| == |d| && forall j :: 0 <= j < |ps| ==> |ps[j].0| == 20 && |ps[j].1| == 6
  {
    seq(|d|, j requires 0 <= j < |d| => (FlipTop(id, d[j].1), Compact(d[j].0)))
  }

  /** The bytes of the node list. */
  function ListOf(id: seq<Byte>, d: Design): (list: seq<Byte>)
    requires |id| == 20 && Writable(d)
  {
    Flatten(PairRecords(Pairs(id, d), UDP4))
  }

  lemma ReadDesigned(env: Env, id: seq<Byte>, i: nat, k: nat)
    requires Literal4(env) && IsId(id) && i < ADDRESS_COUNT && k < 8
    ensures ReadRecord(env, UDP4, FlipTop(id, k) + Compact(i)) == Ok(Remote(Text(env, i), FlipTop(id, k)))
  {
    hide DecodeCompactNodeAddr, Compact, FlipTop, Port;
    PairRead(env, UDP4, FlipTop(id, k), Compact(i));
    CompactHasPort(i);
  }

  lemma {:induction false} NamedDesigned(env: Env, id: seq<Byte>, d: Design, j: nat)
    requires Literal4(env) && IsId(id) && Writable(d) && j <= |d|
    ensures Named(env, UDP4, PairRecords(Pairs(id, d), UDP4)[..j]) == Nodes(env, id, d)[..j]
  {
    hide ReadRecord, Text, Compact, FlipTop, Literal4;
    var rs, rns := PairRecords(Pairs(id, d), UDP4), Nodes(env, id, d);
    if j > 0 {
      NamedDesigned(env, id, d, j - 1);
      ReadDesigned(env, id, d[j - 1].0, d[j - 1].1);
      assert rs[..j][..j - 1] == rs[..j - 1];
      assert rs[..j][j - 1] == FlipTop(id, d[j - 1].1) + Compact(d[j - 1].0);
      assert rns[..j] == rns[..j - 1] + [rns[j - 1]];
    }
  }

  /** Under a literal resolver the written list names the designed nodes. */
  lemma ListedDesigned(env: Env, id: seq<Byte>, d: Design)
    requires Literal4(env) && IsId(id) && Writable(d)
    ensures Listed(env, UDP4, ListOf(id, d)) == Nodes(env, id, d) && |ListOf(id, d)| == 26 * |d|
  {
    hide Named, Text, Compact, FlipTop, Literal4, Records, Flatten;
    var rs := PairRecords(Pairs(id, d), UDP4);
    RecordsOfFlatten(rs, 26);
    ModUnique(26 * |d|, 26, |d|, 0);
    NamedDesigned(env, id, d, |d|);
    assert rs[..|d|] == rs && Nodes(env, id, d)[..|d|] == Nodes(env, id, d);
  }

  lemma DesignedScore(env: Env, t: Table, d: Design, j: nat)
    requires IsId(t.id) && Writable(d) && j < |d|
    ensures var rn := Nodes(env, t.id, d)[j];
            Eligible(t, rn) && Scored(t, rn) == Entry(rn, d[j].1) && rn.addr == Text(env, d[j].0)
  {
    hide FlipTop, CommonPrefix;
    FlipTopPrefix(t.id, d[j].1);
  }

  /** The design uses exactly the first w addresses. */
  ghost predicate Uses(d: Design, w: nat) {
    && (forall j :: 0 <= j < |d| ==> d[j].0 < w)
    && forall i :: 0 <= i < w ==> Mentions(d, i)
  }

  ghost predicate Mentions(d: Design, i: nat) {
    exists j :: 0 <= j < |d| && d[j].0 == i
  }

  lemma WorthyDesigned(env: Env, t: Table, d: Design, w: nat)
    requires IsId(t.id) && Writable(d) && Uses(d, w) && w <= ADDRESS_COUNT
    ensures Worthy(t, Nodes(env, t.id, d)) == Texts(env, w)
  {
    hide Worthy, Text, FlipTop;
    var rns := Nodes(env, t.id, d);
    forall a
      ensures a in Worthy(t, rns) <==> a in Texts(env, w)
    {
      WorthyIff(t, rns, a);
      if a in Worthy(t, rns) {
        var j :| 0 <= j < |rns| && Eligible(t, rns[j]) && rns[j].addr == a;
        assert d[j].0 < w;
      }
      if a in Texts(env, w) {
        var i :| 0 <= i < w && Text(env, i) == a;
        assert Mentions(d, i);
        var j :| 0 <= j < |d| && d[j].0 == i;
        DesignedScore(env, t, d, j);
      }
    }
  }

  // ---------- tables by design ----------

  function FlatItems(id: seq<Byte>, names: seq<string>, k: nat): (s: seq<Entry<Remote>>)
    requires |id| == 20 && k < 8
    ensures |s| == |names|
  {
    seq(|names|, i requires 0 <= i < |names| => Entry(Remote(names[i], FlipTop(id, k)), k))
  }

  ghost function NameSet(names: seq<string>): (s: set<string>) {
    if |names| == 0 then {} else NameSet(names[..|names| - 1]) + {names[|names| - 1]}
  }

  lemma {:induction false} NameSetIff(names: seq<string>, a: string)
    ensures a in NameSet(names) <==> a in names
  {
    if |names| > 0 {
      NameSetIff(names[..|names| - 1], a);
      assert names == names[..|names| - 1] + [names[|names| - 1]];
    }
  }

  ghost predicate Distinct(names: seq<string>) {
    forall i, j :: 0 <= i < j < |names| ==> names[i] != names[j]
  }

  lemma FlatSnoc(id: seq<Byte>, names: seq<string>, k: nat)
    requires |id| == 20 && k < 8 && |names| > 0
    ensures var front := names[..|names| - 1];
            multiset(FlatItems(id, names, k))
            == multiset(FlatItems(id, front, k)) + multiset{Entry(Remote(names[|names| - 1], FlipTop(id, k)), k)}
  {
    hide FlipTop;
    var front, e := names[..|names| - 1], Entry(Remote(names[|names| - 1], FlipTop(id, k)), k);
    assert FlatItems(id, names, k) == FlatItems(id, front, k) + [e];
  }

  lemma {:induction false} FlatInStep(id: seq<Byte>, names: seq<string>, k: nat)
    requires |id| == 20 && k < 8 && Distinct(names)
    ensures InStep(multiset(FlatItems(id, names, k)), NameSet(names))
  {
    if |names| > 0 {
      hide FlipTop, InStep, FlatItems;
      var front, last := names[..|names| - 1], names[|names| - 1];
      FlatInStep(id, front, k);
      NameSetIff(front, last);
      assert last !in front;
      FlatSnoc(id, names, k);
      InStepInsert(multiset(FlatItems(id, front, k)), NameSet(front), Entry(Remote(last, FlipTop(id, k)), k));
    }
  }

  /** A table whose nodes all share k bits with our id. */
  ghost function FlatTable(id: seq<Byte>, max: int, names: seq<string>, k: nat): (t: Table)
    requires |id| == 20 && k < 8
  {
    RT.Table(id, max, FlatItems(id, names, k), NameSet(names))
  }

  lemma FlatTableValid(id: seq<Byte>, max: int, names: seq<string>, k: nat)
    requires IsId(id) && k < 8 && Distinct(names) && 1 <= max && |names| <= max
    ensures RT.Valid(FlatTable(id, max, names, k))
  {
    hide InStep, CommonPrefix, FlipTop;
    FlatInStep(id, names, k);
    FlipTopPrefix(id, k);
  }

  // ---------- two slots or more ----------

  /** A node that shares no bit with our id takes the last slot of a full table. */
  lemma LowReplacesLast(t: Table, y: Remote)
    requires IsId(t.id) && t.max >= 1 && |t.items| == t.max && Accepts(t, y) && Scored(t, y).distance == 0
    requires forall i :: 0 <= i < |t.items| ==> t.items[i].distance >= 0
    ensures RT.Add(t, y).items == t.items[..t.max - 1] + [Scored(t, y)]
  {
    hide CommonPrefix;
    var e, m := Scored(t, y), t.max;
    EvictsOnce(Pushed(t, y));
    var p := t.items + [e];
    assert Push(t.items, e) == p;
    var q := Swapped(p, m - 1, m);
    assert !Sinks(q, m - 1, m);
    assert q[m - 1] == e;
    assert Sifted(q, m - 1, m) == q;
    assert Unlinked(p, m - 1) == q;
    assert q[..m] == t.items[..m - 1] + [e];
  }

  /** The addresses in all slots but the last. */
  ghost predicate InBody(t: Table, a: string) {
    exists i :: 0 <= i < |t.items| - 1 && t.items[i].value.addr == a
  }

  ghost predicate AllLow(t: Table, low: seq<Remote>)
    requires IsId(t.id)
  {
    forall i :: 0 <= i < |low| ==> Eligible(t, low[i]) && Scored(t, low[i]).distance == 0
  }

  /** What adding nodes that share no bit leaves of a full table: all slots but the last. */
  ghost predicate OnlyLastChanged(t: Table, u: Table, low: seq<Remote>)
    requires t.max >= 1
  {
    && |u.items| == |t.items| == t.max && u.items[..t.max - 1] == t.items[..t.max - 1]
    && (u.items[t.max - 1].distance == 0 || u.items[t.max - 1] == t.items[t.max - 1])
    && (|low| > 0 && !InBody(t, low[|low| - 1].addr) ==>
          u.items[t.max - 1].value.addr == low[|low| - 1].addr)
  }

  lemma LowStep(t: Table, before: Table, front: seq<Remote>, y: Remote)
    requires RT.Valid(t) && RT.Valid(before) && before.id == t.id && before.max == t.max
    requires OnlyLastChanged(t, before, front) && Eligible(t, y) && Scored(t, y).distance == 0
    ensures OnlyLastChanged(t, RT.Add(before, y), front + [y])
  {
    hide CommonPrefix, Ordered, InStep, RT.Add;
    if Accepts(before, y) {
      forall i | 0 <= i < |before.items|
        ensures before.items[i].distance >= 0
      {
        assert before.items[i] in multiset(before.items);
      }
      LowReplacesLast(before, y);
    } else {
      AddRejected(before, y);
      SlotOf(before, y.addr);
      if !InBody(t, y.addr) {
        SameBody(t, before, y.addr);
      }
    }
  }

  lemma SameBody(t: Table, u: Table, a: string)
    requires t.max >= 1 && |u.items| == |t.items| == t.max
    requires u.items[..t.max - 1] == t.items[..t.max - 1] && !InBody(t, a)
    ensures forall i :: 0 <= i < |u.items| && u.items[i].value.addr == a ==> i == t.max - 1
  {
    forall i | 0 <= i < t.max - 1
      ensures u.items[i].value.addr != a
    {
      assert u.items[i] == u.items[..t.max - 1][i] == t.items[..t.max - 1][i] == t.items[i];
    }
  }

  lemma SlotOf(t: Table, a: string)
    requires Structured(t) && a in t.addresses
    ensures exists i :: 0 <= i < |t.items| && t.items[i].value.addr == a
  {
    var e :| e in multiset(t.items) && e.value.addr == a;
    var i :| 0 <= i < |t.items| && t.items[i] == e;
  }

  lemma {:induction false} LowRun(t: Table, low: seq<Remote>)
    requires RT.Valid(t) && |t.items| == t.max && AllLow(t, low)
    ensures OnlyLastChanged(t, AddAll(t, low), low)
  {
    hide RT.Add, InStep, Ordered, Fits, CommonPrefix;
    if |low| > 0 {
      var front, y := low[..|low| - 1], low[|low| - 1];
      assert AllLow(t, front);
      LowRun(t, front);
      AddAllValid(t, front);
      LowStep(t, AddAll(t, front), front, y);
      assert front + [y] == low;
    }
  }

  lemma AddAddresses(t: Table, rn: Remote)
    requires RT.Valid(t)
    ensures RT.Add(t, rn).addresses <= t.addresses + {rn.addr}
  {
    hide RT.Add, InStep, Ordered, Fits;
    if !Accepts(t, rn) {
      AddRejected(t, rn);
    } else if |t.items| < t.max {
      AddToRoom(t, rn);
    } else {
      AddToFull(t, rn);
    }
  }

  /** A pass brings in no address but those of its nodes. */
  lemma {:induction false} AddAllAddresses(t: Table, rns: seq<Remote>, a: string)
    requires RT.Valid(t) && a !in t.addresses && forall i :: 0 <= i < |rns| ==> rns[i].addr != a
    ensures a !in AddAll(t, rns).addresses
  {
    hide RT.Add, InStep, Ordered, Fits;
    if |rns| > 0 {
      var front := rns[..|rns| - 1];
      assert forall i :: 0 <= i < |front| ==> front[i] == rns[i];
      AddAllAddresses(t, front, a);
      AddAllValid(t, front);
      AddAddresses(AddAll(t, front), rns[|rns| - 1]);
    }
  }

  /** After a node that beats everything is added to a full table, it is the root and the last entry is gone. */
  lemma HighEvictsLast(u: Table, b: Remote)
    requires RT.Valid(u) && u.max >= 2 && |u.items| == u.max && Accepts(u, b)
    requires forall i :: 0 <= i < |u.items| ==> u.items[i].distance < Scored(u, b).distance
    ensures var t1 := RT.Add(u, b);
            && RT.Valid(t1) && |t1.items| == t1.max
            && t1.items[0] == Scored(u, b)
            && u.items[u.max - 1].value.addr !in t1.addresses
  {
    hide RT.Add, InStep, Ordered, Fits, CommonPrefix;
    var t1 := RT.Add(u, b);
    AddValid(u, b);
    AddToFull(u, b);
    VictimIsLast(u, b);
    NewNodeAndRootStay(u, b);
    var last := u.items[u.max - 1];
    RootIsNewcomer(u, t1, Scored(u, b));
  }

  lemma RootIsNewcomer(u: Table, t1: Table, e: Entry<Remote>)
    requires Ordered(t1.items, |t1.items|) && e in multiset(t1.items)
    requires forall f :: f in multiset(t1.items) ==> f in multiset(u.items) || f == e
    requires forall i :: 0 <= i < |u.items| ==> u.items[i].distance < e.distance
    ensures t1.items[0] == e
  {
    RootBeats(t1, e);
  }

  /**
    Low nodes and then one that beats everything, on a full table: the last low node is
    evicted in the first pass and back for good in the second.
   */
  lemma {:induction false} LowListSpoils(t: Table, low: seq<Remote>, b: Remote)
    requires RT.Valid(t) && t.max >= 2 && |t.items| == t.max && |low| > 0 && AllLow(t, low)
    requires forall i :: 0 <= i < |t.items| ==> t.items[i].distance == 0
    requires Accepts(t, b) && Scored(t, b).distance > 0
    requires forall i :: 0 <= i < |low| ==> low[i].addr != b.addr
    requires !InBody(t, low[|low| - 1].addr)
    ensures AddAll(AddAll(t, low + [b]), low + [b]) != AddAll(t, low + [b])
  {
    hide RT.Add, AddAll, InStep, Ordered, Fits, CommonPrefix;
    var z := low[|low| - 1].addr;
    var u := AddAll(t, low);
    AddAllValid(t, low);
    LowRun(t, low);
    AddAllAddresses(t, low, b.addr);
    BodyIsLow(t, u);
    HighEvictsLast(u, b);
    var t1 := RT.Add(u, b);
    AddAllSnoc(t, low, b);
    SecondPassRestores(t1, low, b);
  }

  lemma AddAllSnoc(t: Table, low: seq<Remote>, b: Remote)
    requires IsId(t.id) && t.max >= 1
    ensures AddAll(t, low + [b]) == RT.Add(AddAll(t, low), b)
  {
    assert (low + [b])[..|low|] == low;
  }

  lemma {:induction false} SecondPassRestores(t1: Table, low: seq<Remote>, b: Remote)
    requires RT.Valid(t1) && t1.max >= 2 && |t1.items| == t1.max && |low| > 0 && AllLow(t1, low)
    requires t1.items[0].value.addr == b.addr && low[|low| - 1].addr !in t1.addresses
    ensures low[|low| - 1].addr in AddAll(t1, low + [b]).addresses
  {
    hide RT.Add, AddAll, InStep, Ordered, Fits, CommonPrefix;
    BodyIsListed(t1, low[|low| - 1].addr);
    LowRun(t1, low);
    AddAllValid(t1, low);
    var v := AddAll(t1, low);
    assert v.items[0] == v.items[..v.max - 1][0] == t1.items[..t1.max - 1][0] == t1.items[0];
    SlotListed(v, 0);
    SlotListed(v, v.max - 1);
    AddRejected(v, b);
    AddAllSnoc(t1, low, b);
  }

  lemma BodyIsLow(t: Table, u: Table)
    requires t.max >= 1 && |u.items| == |t.items| == t.max && u.items[..t.max - 1] == t.items[..t.max - 1]
    requires u.items[t.max - 1].distance == 0 || u.items[t.max - 1] == t.items[t.max - 1]
    requires forall i :: 0 <= i < |t.items| ==> t.items[i].distance == 0
    ensures forall i :: 0 <= i < |u.items| ==> u.items[i].distance == 0
  {
    forall i | 0 <= i < t.max - 1
      ensures u.items[i].distance == 0
    {
      assert u.items[i] == u.items[..t.max - 1][i] == t.items[..t.max - 1][i];
    }
  }

  lemma SlotListed(t: Table, i: nat)
    requires RT.Valid(t) && i < |t.items|
    ensures t.items[i].value.addr in t.addresses
  {
    assert t.items[i] in multiset(t.items);
    AddressListed(t, t.items[i]);
  }

  lemma BodyIsListed(t: Table, a: string)
    requires RT.Valid(t) && a !in t.addresses
    ensures !InBody(t, a)
  {
    forall i | 0 <= i < |t.items| - 1
      ensures t.items[i].value.addr != a
    {
      SlotListed(t, i);
    }
  }

  // ---------- one slot ----------

  ghost function One(t: Table, e: Entry<Remote>): (r: Table) {
    t.(items := [e], addresses := {e.value.addr})
  }

  lemma OneStep(t: Table, e: Entry<Remote>, rn: Remote)
    requires IsId(t.id) && t.max == 1 && Eligible(t, rn)
    ensures RT.Add(One(t, e), rn)
            == if rn.addr == e.value.addr || Scored(t, rn).distance > e.distance then One(t, e)
               else One(t, Scored(t, rn))
  {
    hide RT.Add;
    if rn.addr == e.value.addr {
      AddRejected(One(t, e), rn);
    } else {
      AddToOne(One(t, e), rn, e);
    }
  }

  lemma {:induction false} OneKeeps(t: Table, e: Entry<Remote>, rns: seq<Remote>)
    requires IsId(t.id) && t.max == 1
    requires forall i :: 0 <= i < |rns| ==> Eligible(t, rns[i]) && Scored(t, rns[i]).distance > e.distance
    ensures AddAll(One(t, e), rns) == One(t, e)
  {
    hide RT.Add, CommonPrefix;
    if |rns| > 0 {
      var front := rns[..|rns| - 1];
      assert forall i :: 0 <= i < |front| ==> front[i] == rns[i];
      OneKeeps(t, e, front);
      OneStep(t, e, rns[|rns| - 1]);
    }
  }

  lemma OneThree(t: Table, x: Remote, y: Remote, z: Remote)
    requires IsId(t.id) && t.max >= 1
    ensures AddAll(t, [x, y, z]) == RT.Add(RT.Add(RT.Add(t, x), y), z)
  {
    hide RT.Add;
    var s := [x, y, z];
    assert s[..2] == [x, y] && s[..2][..1] == [x] && s[..2][..1][..0] == [];
    assert AddAll(t, [x]) == RT.Add(t, x);
    assert AddAll(t, [x, y]) == RT.Add(RT.Add(t, x), y);
  }

  /**
    In a table of one, two nodes at one address and one in between: the first pass ends with
    the third, the second with the second.
   */
  lemma OneSpoils(t: Table, e: Entry<Remote>, x: Remote, y: Remote, z: Remote, pads: seq<Remote>)
    requires IsId(t.id) && t.max == 1 && Eligible(t, x) && Eligible(t, y) && Eligible(t, z)
    requires x.addr == y.addr != z.addr && e.value.addr != z.addr
    requires Scored(t, x).distance == 5 && Scored(t, y).distance == 3 && Scored(t, z).distance == 4
    requires (e.value.addr == x.addr && e.distance == 5) || (e.value.addr != x.addr && e.distance == 6)
    requires forall i :: 0 <= i < |pads| ==> Eligible(t, pads[i]) && Scored(t, pads[i]).distance == 7
    ensures var all := [x, y, z] + pads;
            AddAll(AddAll(One(t, e), all), all) != AddAll(One(t, e), all)
  {
    hide RT.Add, AddAll, CommonPrefix;
    var all := [x, y, z] + pads;
    var t0, t1, t2 := One(t, e), One(t, Scored(t, z)), One(t, Scored(t, y));
    AddAllConcat(t0, [x, y, z], pads);
    AddAllConcat(t1, [x, y, z], pads);
    OneThree(t0, x, y, z);
    OneThree(t1, x, y, z);
    var first := if e.value.addr == x.addr then e else Scored(t, x);
    OneStep(t, e, x);
    OneStep(t, first, y);
    OneStep(t, first, z);
    OneKeeps(t, Scored(t, z), pads);
    OneStep(t, Scored(t, z), x);
    OneStep(t, Scored(t, z), y);
    OneStep(t, Scored(t, y), z);
    OneKeeps(t, Scored(t, y), pads);
    assert t1.items[0].value.addr != t2.items[0].value.addr;
  }

  // ---------- counts ----------

  /** The number of the address in slot i: first addresses from w on, then 0 to o - 1. */
  function Number(max: nat, o: nat, w: nat, i: nat): (j: nat)
    requires o <= max && o <= w && i < max
    ensures j < max - o + w && (j < o || w <= j)
    ensures i < max - o <==> w <= j
  {
    if i < max - o then w + i else i - (max - o)
  }

  /** A table's addresses, o of which are among the first w. */
  function Names(env: Env, max: nat, o: nat, w: nat): (names: seq<string>)
    requires o <= max && o <= w && max - o + w <= ADDRESS_COUNT
    ensures |names| == max
  {
    seq(max, i requires 0 <= i < max => Text(env, Number(max, o, w, i)))
  }

  lemma NamesDistinct(env: Env, max: nat, o: nat, w: nat)
    requires o <= max && o <= w && max - o + w <= ADDRESS_COUNT
    ensures Distinct(Names(env, max, o, w))
  {
    hide Text;
    forall i, j | 0 <= i < j < max
      ensures Names(env, max, o, w)[i] != Names(env, max, o, w)[j]
    {
      if Names(env, max, o, w)[i] == Names(env, max, o, w)[j] {
        TextInjective(env, Number(max, o, w, i), Number(max, o, w, j));
      }
    }
  }

  /** A slot holds address j only if that is its number. */
  lemma NameIsNumber(env: Env, max: nat, o: nat, w: nat, i: nat, j: nat)
    requires o <= max && o <= w && max - o + w <= ADDRESS_COUNT && i < max && j < ADDRESS_COUNT
    requires Number(max, o, w, i) != j
    ensures Names(env, max, o, w)[i] != Text(env, j)
  {
    hide Text;
    if Names(env, max, o, w)[i] == Text(env, j) {
      TextInjective(env, Number(max, o, w, i), j);
    }
  }

  /** An address from o to w - 1 is none of the names. */
  lemma LaterTextIsNew(env: Env, max: nat, o: nat, w: nat, j: nat)
    requires o <= max && o <= w && max - o + w <= ADDRESS_COUNT && o <= j < w
    ensures Text(env, j) !in Names(env, max, o, w)
  {
    hide Text;
    forall i | 0 <= i < max
      ensures Names(env, max, o, w)[i] != Text(env, j)
    {
      NameIsNumber(env, max, o, w, i, j);
    }
  }

  lemma NamesAndTexts(env: Env, max: nat, o: nat, w: nat)
    requires o <= max && o <= w && max - o + w <= ADDRESS_COUNT
    ensures |NameSet(Names(env, max, o, w)) + Texts(env, w)| == max - o + w
  {
    hide Text;
    var names, total := Names(env, max, o, w), max - o + w;
    forall a
      ensures a in NameSet(names) + Texts(env, w) <==> a in Texts(env, total)
    {
      NameSetIff(names, a);
      if a in names {
        var i :| 0 <= i < max && names[i] == a;
        assert a == Text(env, Number(max, o, w, i));
      }
      if a in Texts(env, total) {
        var j :| 0 <= j < total && Text(env, j) == a;
        assert j >= w ==> names[j - w] == a;
      }
    }
    assert NameSet(names) + Texts(env, w) == Texts(env, total);
    TextsSize(env, total);
  }

  /** The numbers that decide: all addresses involved, and the worthy ones of the list. */
  ghost predicate HasCounts(env: Env, n: State, list: seq<Byte>, total: nat, worthy: nat) {
    var ws := Worthy(n.table, Listed(env, n.family, list));
    |n.table.addresses + ws| == total && |ws| == worthy
  }

  ghost predicate TwiceIsOnce(env: Env, n: State, sender: string, list: seq<Byte>)
    requires IsId(n.table.id) && n.table.max >= 1
  {
    var once := ProcessNodes(env, n, sender, list);
    ProcessNodes(env, once, sender, list) == once
  }

  /** A list whose nodes share no bit with our id, but for the last, which shares one. */
  function LowThenHigh(w: nat): (d: Design)
    ensures |d| == w && (w <= ADDRESS_COUNT ==> Writable(d))
  {
    seq(w, j => (j, if j == w - 1 then 1 else 0))
  }

  /** Two nodes at address 0, one at address 1, and nodes too close for the rest. */
  function UpAndDown(w: nat): (d: Design)
    requires w >= 2
    ensures |d| == w + 1
  {
    [(0, 5), (0, 3), (1, 4)] + seq(w - 2, j => (j + 2, 7))
  }

  lemma UsesLowThenHigh(w: nat)
    ensures Uses(LowThenHigh(w), w)
  {
    forall i | 0 <= i < w
      ensures Mentions(LowThenHigh(w), i)
    {
      assert LowThenHigh(w)[i].0 == i;
    }
  }

  lemma UsesUpAndDown(w: nat)
    requires w >= 2
    ensures Uses(UpAndDown(w), w)
  {
    var d := UpAndDown(w);
    forall i | 0 <= i < w
      ensures Mentions(d, i)
    {
      assert d[if i == 0 then 0 else i + 1].0 == i;
    }
  }

  /** The node whose table and list the counterexamples are made of. */
  ghost function Start(env: Env, id: seq<Byte>, max: nat, o: nat, w: nat, k: nat): (n: State)
    requires |id| == 20 && k < 8 && o <= max && o <= w && max - o + w <= ADDRESS_COUNT
  {
    State(id, UDP4, FlatTable(id, max, Names(env, max, o, w), k), {}, [])
  }

  lemma StartValid(env: Env, id: seq<Byte>, max: nat, o: nat, w: nat, k: nat)
    requires IsId(id) && k < 8 && o <= max && o <= w && max - o + w <= ADDRESS_COUNT && max >= 1
    ensures Node.Valid(Start(env, id, max, o, w, k)) && |Start(env, id, max, o, w, k).table.items| == max
  {
    NamesDistinct(env, max, o, w);
    FlatTableValid(id, max, Names(env, max, o, w), k);
  }

  /** The counts of a designed list over such a table, and what two passes do to it. */
  lemma DesignedList(env: Env, id: seq<Byte>, max: nat, o: nat, w: nat, k: nat, d: Design)
    requires Literal4(env) && IsId(id) && k < 8 && o <= max && 1 <= max && o <= w && max - o + w <= ADDRESS_COUNT
    requires Writable(d) && Uses(d, w)
    ensures var n := Start(env, id, max, o, w, k);
            var t, rns := n.table, Nodes(env, id, d);
            && HasCounts(env, n, ListOf(id, d), max - o + w, w)
            && |ListOf(id, d)| == 26 * |d|
            && (AddAll(AddAll(t, rns), rns) != AddAll(t, rns) ==> !TwiceIsOnce(env, n, "", ListOf(id, d)))
  {
    hide AddAll, Worthy, Listed, Texts, NameSet, Names, Nodes, ListOf, FlatItems, Literal4, ProcessNodes, Uses;
    var n := Start(env, id, max, o, w, k);
    var list := ListOf(id, d);
    ListedDesigned(env, id, d);
    WorthyDesigned(env, n.table, d, w);
    NamesAndTexts(env, max, o, w);
    TextsSize(env, w);
    ProcessNodesAdds(env, n, "", list);
    ProcessNodesAdds(env, ProcessNodes(env, n, "", list), "", list);
  }

  lemma FailsWithRoomForTwo(env: Env, id: seq<Byte>, max: nat, total: nat, w: nat)
    requires Literal4(env) && IsId(id) && max >= 2 && w >= 2
    requires max < total <= max + w && w <= total <= ADDRESS_COUNT
    ensures var o := w - (total - max);
            var n, list := Start(env, id, max, o, w, 0), ListOf(id, LowThenHigh(w));
            Node.Valid(n) && HasCounts(env, n, list, total, w) && |list| == 26 * w
            && !TwiceIsOnce(env, n, "", list)
  {
    hide InStep, Ordered, Fits, CommonPrefix, FlipTop, Text, AddAll, TwiceIsOnce, HasCounts, ListOf;
    var o, d := w - (total - max), LowThenHigh(w);
    StartValid(env, id, max, o, w, 0);
    UsesLowThenHigh(w);
    DesignedList(env, id, max, o, w, 0, d);
    LowThenHighSpoils(env, id, max, o, w);
  }

  lemma LowThenHighSpoils(env: Env, id: seq<Byte>, max: nat, o: nat, w: nat)
    requires IsId(id) && max >= 2 && 2 <= w && o < w && o <= max && max - o + w <= ADDRESS_COUNT
    ensures var t, rns := Start(env, id, max, o, w, 0).table, Nodes(env, id, LowThenHigh(w));
            AddAll(AddAll(t, rns), rns) != AddAll(t, rns)
  {
    hide InStep, Ordered, Fits, CommonPrefix, FlipTop, Text, AddAll;
    var t, rns := Start(env, id, max, o, w, 0).table, Nodes(env, id, LowThenHigh(w));
    var low, b := rns[..w - 1], rns[w - 1];
    assert low + [b] == rns;
    StartValid(env, id, max, o, w, 0);
    forall i | 0 <= i < w - 1
      ensures Eligible(t, low[i]) && Scored(t, low[i]).distance == 0 && low[i].addr != b.addr
    {
      LowNode(env, t, w, i);
    }
    DesignedScore(env, t, LowThenHigh(w), w - 1);
    LaterTextIsNew(env, max, o, w, w - 1);
    NameSetIff(Names(env, max, o, w), b.addr);
    LastLowIsOutside(env, max, o, w, t);
    LowListSpoils(t, low, b);
  }

  lemma LowNode(env: Env, t: Table, w: nat, i: nat)
    requires IsId(t.id) && 2 <= w <= ADDRESS_COUNT && i < w - 1
    ensures var rns := Nodes(env, t.id, LowThenHigh(w));
            Eligible(t, rns[i]) && Scored(t, rns[i]).distance == 0 && rns[i].addr != rns[w - 1].addr
  {
    hide Text, FlipTop, CommonPrefix;
    DesignedScore(env, t, LowThenHigh(w), i);
    if Text(env, i) == Text(env, w - 1) {
      TextInjective(env, i, w - 1);
    }
  }

  lemma LastLowIsOutside(env: Env, max: nat, o: nat, w: nat, t: Table)
    requires o <= max && o < w && 2 <= w && max - o + w <= ADDRESS_COUNT
    requires |t.items| == max && forall i :: 0 <= i < max ==> t.items[i].value.addr == Names(env, max, o, w)[i]
    ensures !InBody(t, Text(env, w - 2))
  {
    hide Text;
    forall i | 0 <= i < max - 1
      ensures Names(env, max, o, w)[i] != Text(env, w - 2)
    {
      NameIsNumber(env, max, o, w, i, w - 2);
    }
  }

  lemma FailsWithRoomForOne(env: Env, id: seq<Byte>, total: nat, w: nat)
    requires Literal4(env) && IsId(id) && w >= 2 && w <= total <= w + 1 && total <= ADDRESS_COUNT
    ensures var o := w + 1 - total;
            var n, list := Start(env, id, 1, o, w, 6 - o), ListOf(id, UpAndDown(w));
            Node.Valid(n) && HasCounts(env, n, list, total, w) && !TwiceIsOnce(env, n, "", list)
  {
    hide InStep, Ordered, Fits, CommonPrefix, FlipTop, Text, AddAll, TwiceIsOnce, HasCounts, ListOf;
    var o, d := w + 1 - total, UpAndDown(w);
    var t, rns := Start(env, id, 1, o, w, 6 - o).table, Nodes(env, id, d);
    StartValid(env, id, 1, o, w, 6 - o);
    UsesUpAndDown(w);
    DesignedList(env, id, 1, o, w, 6 - o, d);
    var pads := rns[3..];
    assert rns == [rns[0], rns[1], rns[2]] + pads;
    forall i | 0 <= i < |pads|
      ensures Eligible(t, pads[i]) && Scored(t, pads[i]).distance == 7
    {
      DesignedScore(env, t, d, i + 3);
    }
    DesignedScore(env, t, d, 0);
    DesignedScore(env, t, d, 1);
    DesignedScore(env, t, d, 2);
    ZeroIsNotOne(env);
    NameIsNumber(env, 1, o, w, 0, 1);
    if o == 0 {
      NameIsNumber(env, 1, o, w, 0, 0);
    }
    var e := t.items[0];
    OneName(Names(env, 1, o, w));
    assert t == One(t, e);
    OneSpoils(t, e, rns[0], rns[1], rns[2], pads);
  }

  lemma ZeroIsNotOne(env: Env)
    ensures Text(env, 0) != Text(env, 1)
  {
    if Text(env, 0) == Text(env, 1) {
      TextInjective(env, 0, 1);
    }
  }

  lemma OneName(names: seq<string>)
    requires |names| == 1
    ensures NameSet(names) == {names[0]}
  {
    assert NameSet(names[..0]) == {};
  }

  /**
    Exactness: two passes equal one for all tables and lists with these counts if and only
    if all addresses fit the table or at most one address of the list is worthy.
   */
  lemma DoublePassExact(env: Env, id: seq<Byte>, max: nat, total: nat, w: nat)
    requires Literal4(env) && IsId(id) && max >= 1
    requires w <= total <= max + w && total <= ADDRESS_COUNT
    ensures (forall n: State, sender, list |
               Node.Valid(n) && n.family == UDP4 && n.id == id && n.table.max == max
               && HasCounts(env, n, list, total, w)
               :: TwiceIsOnce(env, n, sender, list))
            <==> total <= max || w <= 1
  {
    hide RT.Valid, HasCounts, TwiceIsOnce, Literal4, ListOf;
    if total <= max || w <= 1 {
      forall n: State, sender, list |
        Node.Valid(n) && n.family == UDP4 && n.id == id && n.table.max == max && HasCounts(env, n, list, total, w)
        ensures TwiceIsOnce(env, n, sender, list)
      {
        EnoughRoom(env, n, sender, list, total, w);
      }
    } else if max >= 2 {
      FailsWithRoomForTwo(env, id, max, total, w);
    } else {
      FailsWithRoomForOne(env, id, total, w);
    }
  }

  lemma EnoughRoom(env: Env, n: State, sender: string, list: seq<Byte>, total: nat, w: nat)
    requires Node.Valid(n) && HasCounts(env, n, list, total, w) && (total <= n.table.max || w <= 1)
    ensures TwiceIsOnce(env, n, sender, list)
  {
    hide RT.Valid, Worthy, Listed, ProcessNodes;
    DoublePassIsSingle(env, n, sender, list);
  }

  /** The smallest case: a list of two records on a full table of two with one of them in it. */
  lemma TwoRecordsDiffer(env: Env, id: seq<Byte>) returns (n: State, list: seq<Byte>)
    requires Literal4(env) && IsId(id)
    ensures Node.Valid(n) && n.family == UDP4 && |list| == 52 && |n.table.items| == n.table.max == 2
    ensures var once := ProcessNodes(env, n, "", list);
            ProcessNodes(env, once, "", list) != once
  {
    hide ListOf, ProcessNodes, HasCounts, RT.Valid, Literal4, Names, FlatItems, NameSet, LowThenHigh;
    n, list := Start(env, id, 2, 1, 2, 0), ListOf(id, LowThenHigh(2));
    StartValid(env, id, 2, 1, 2, 0);
    FailsWithRoomForTwo(env, id, 2, 3, 2);
  }
}
