/**
  The routing table while a neighbour round runs beside the packet reader (dht/node.go): the
  round overwrites ids of nodes it took from the table, at any moment between adds, and
  flushes at the end. Which of those nodes are still in the table is left open.
 */
module Interleaving {
  import opened Bytes
  import opened Infohash
  import opened Heap
  import opened RoutingTable

  /** An add or a flush, or the overwrite of the id of the node in slot i, if there is one. */
  datatype Move = Apply(op: Op) | Overwrite(i: nat)

  function OverwrittenEntry(own: seq<Byte>, e: Entry<Remote>): (r: Entry<Remote>)
    requires IsId(own) && IsId(e.value.id)
  {
    e.(value := e.value.(id := NeighbourOf(own, e.value.id)))
  }

  ghost function Moved(t: Table, m: Move): (r: Table)
    requires IsId(t.id) && t.max >= 1
    ensures r.id == t.id && r.max == t.max
  {
    match m
    case Apply(op) => Step(t, op)
    case Overwrite(i) =>
      if i < |t.items| && IsId(t.items[i].value.id)
      then t.(items := t.items[i := OverwrittenEntry(t.id, t.items[i])]) else t
  }

  ghost function Moves(id: seq<Byte>, max: int, ms: seq<Move>): (t: Table)
    requires IsId(id) && max >= 1
    ensures t.id == id && t.max == max
  {
    if |ms| == 0 then Empty(id, max) else Moved(Moves(id, max, ms[..|ms| - 1]), ms[|ms| - 1])
  }

  /** An entry with its true distance, or one that the overwrite turned into our own id. */
  ghost predicate Loose(own: seq<Byte>, e: Entry<Remote>)
    requires IsId(own)
  {
    Fits(own, e) || (e.value.id == own && 80 <= e.distance < ID_BITS)
  }

  /** The overwrite spoils an entry exactly if its distance is 80 or more. */
  lemma OverwriteSpoilsIffNear(own: seq<Byte>, e: Entry<Remote>)
    requires IsId(own) && Fits(own, e)
    ensures Fits(own, OverwrittenEntry(own, e)) <==> e.distance < 80
    ensures Loose(own, OverwrittenEntry(own, e))
  {
    NeighbourDistance(own, e.value.id);
    FullPrefixIffEqual(own, e.value.id);
  }

  lemma OverwriteKeepsLoose(own: seq<Byte>, e: Entry<Remote>)
    requires IsId(own) && Loose(own, e)
    ensures IsId(e.value.id) && Loose(own, OverwrittenEntry(own, e))
  {
    if Fits(own, e) {
      OverwriteSpoilsIffNear(own, e);
    } else {
      assert own == own[..10] + own[10..];
    }
  }

  lemma ReplaceAt<T>(s: seq<T>, i: nat, x: T)
    requires i < |s|
    ensures multiset(s[i := x]) == multiset(s) - multiset{s[i]} + multiset{x}
  {
  }

  /** Overwriting an id leaves heap order and address map alone. */
  lemma OverwriteKeepsStructure(t: Table, i: nat)
    requires Structured(t) && i < |t.items| && IsId(t.items[i].value.id)
    ensures Structured(Moved(t, Overwrite(i)))
  {
    hide InStep, NeighbourOf;
    var e, e' := t.items[i], OverwrittenEntry(t.id, t.items[i]);
    OrderByDistance(t.items, t.items[i := e']);
    ReplaceAt(t.items, i, e');
    assert e in multiset(t.items);
    AddressListed(t, e);
    InStepReplace(multiset(t.items), t.addresses, e, e');
  }

  lemma InStepReplace(m: multiset<Entry<Remote>>, addresses: set<string>, e: Entry<Remote>, f: Entry<Remote>)
    requires InStep(m, addresses) && e in m && e.value.addr == f.value.addr && e.value.addr in addresses
    ensures InStep(m - multiset{e} + multiset{f}, addresses)
  {
    hide InStep;
    InStepDelete(m, addresses, e);
    InStepInsert(m - multiset{e}, addresses - {e.value.addr}, f);
    assert addresses - {e.value.addr} + {f.value.addr} == addresses;
  }

  lemma OrderByDistance(s: seq<Entry<Remote>>, r: seq<Entry<Remote>>)
    requires |r| == |s| && Ordered(s, |s|)
    requires forall j :: 0 <= j < |s| ==> r[j].distance == s[j].distance
    ensures Ordered(r, |r|)
  {
    forall j | 0 < j < |r|
      ensures !Less(r, j, Parent(j))
    {
      assert !Less(s, j, Parent(j));
    }
  }

  ghost predicate LooselyValid(t: Table) {
    && Structured(t) && |t.items| <= t.max
    && forall e :: e in multiset(t.items) ==> Loose(t.id, e)
  }

  lemma MoveKeepsLoose(t: Table, m: Move)
    requires LooselyValid(t)
    ensures LooselyValid(Moved(t, m))
  {
    hide InStep, Ordered, Loose, Add;
    var r := Moved(t, m);
    match m
    case Apply(FlushOp) => EmptyIsFine(t.id, t.max);
    case Apply(AddOp(rn)) =>
      AddStructured(t, rn);
      forall e | e in multiset(r.items)
        ensures Loose(t.id, e)
      {
        AddEntries(t, rn, e);
        if e !in multiset(t.items) {
          ScoredFits(t, rn);
        }
      }
    case Overwrite(i) =>
      if i < |t.items| && IsId(t.items[i].value.id) {
        assert t.items[i] in multiset(t.items);
        OverwriteKeepsLoose(t.id, t.items[i]);
        OverwriteKeepsStructure(t, i);
        ReplaceAt(t.items, i, OverwrittenEntry(t.id, t.items[i]));
      }
  }

  lemma {:induction false} AddAllLoose(t: Table, rns: seq<Remote>)
    requires LooselyValid(t)
    ensures LooselyValid(AddAll(t, rns))
  {
    hide InStep, Ordered, Loose, Add;
    if |rns| > 0 {
      AddAllLoose(t, rns[..|rns| - 1]);
      MoveKeepsLoose(AddAll(t, rns[..|rns| - 1]), Apply(AddOp(rns[|rns| - 1])));
    }
  }

  /** A round does break the table's own invariant: an overwrite keeps it exactly below distance 80. */
  lemma OverwriteKeepsValidIffFar(t: Table, i: nat)
    requires RoutingTable.Valid(t) && i < |t.items|
    ensures RoutingTable.Valid(Moved(t, Overwrite(i))) <==> t.items[i].distance < 80
  {
    hide InStep, Ordered, Fits;
    var e := t.items[i];
    var r := Moved(t, Overwrite(i));
    assert e in multiset(t.items) && Fits(t.id, e);
    FitsIsId(t.id, e);
    OverwriteSpoilsIffNear(t.id, e);
    OverwriteKeepsStructure(t, i);
    ReplaceAt(t.items, i, OverwrittenEntry(t.id, e));
    assert r.items[i] == OverwrittenEntry(t.id, e) && r.items[i] in multiset(r.items);
  }

  lemma FitsIsId(own: seq<Byte>, e: Entry<Remote>)
    requires IsId(own) && Fits(own, e)
    ensures IsId(e.value.id)
  {
  }

  lemma EmptyIsFine(id: seq<Byte>, max: int)
    requires IsId(id) && max >= 1
    ensures LooselyValid(Empty(id, max))
  {
  }

  lemma ScoredFits(t: Table, rn: Remote)
    requires IsId(t.id) && Accepts(t, rn)
    ensures Loose(t.id, Scored(t, rn))
  {
  }

  /**
    However adds, flushes and overwrites interleave, heap order, the address map and the
    bound stay right, and a cached distance is wrong only for an entry that has become our
    own id, whose true distance was 80 or more.
   */
  lemma {:induction false} InterleavedRunsStayStructured(id: seq<Byte>, max: int, ms: seq<Move>)
    requires IsId(id) && max >= 1
    ensures LooselyValid(Moves(id, max, ms))
  {
    hide LooselyValid;
    if |ms| == 0 {
      EmptyIsFine(id, max);
    } else {
      InterleavedRunsStayStructured(id, max, ms[..|ms| - 1]);
      MoveKeepsLoose(Moves(id, max, ms[..|ms| - 1]), ms[|ms| - 1]);
    }
  }

  /** Once such a run is flushed, what follows is an ordinary run again. */
  lemma {:induction false} FlushRestores(id: seq<Byte>, max: int, ms: seq<Move>, ops: seq<Op>)
    requires IsId(id) && max >= 1
    ensures Moves(id, max, ms + [Apply(FlushOp)] + Plain(ops)) == Run(id, max, ops)
  {
    var start := ms + [Apply(FlushOp)];
    if |ops| == 0 {
      assert start + Plain(ops) == start && start[..|ms|] == ms;
    } else {
      var all := start + Plain(ops);
      assert all[..|all| - 1] == start + Plain(ops[..|ops| - 1]);
      FlushRestores(id, max, ms, ops[..|ops| - 1]);
    }
  }

  function Plain(ops: seq<Op>): (ms: seq<Move>)
    ensures |ms| == |ops|
  {
    seq(|ops|, i requires 0 <= i < |ops| => Apply(ops[i]))
  }
}
