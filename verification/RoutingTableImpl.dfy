/**
  The routing table as the program keeps it: heap items with back-pointers, a slice and a
  map changed in place (dht/routing_table.go, dht/remote_node.go). Ids are arrays, since
  `GenerateNeighbour` overwrites the id of a node that is still in the table.
 */
module RoutingTableImpl {
  import opened Bytes
  import opened Infohash
  import opened Heap
  import opened RT = RoutingTable

  class RemoteNode {
    const addr: string
    const id: array<Byte>

    constructor (addr: string, id: array<Byte>)
      ensures this.addr == addr && this.id == id
    {
      this.addr := addr;
      this.id := id;
    }

    ghost function Snapshot(): (r: Remote)
      reads id
    {
      Remote(addr, id[..])
    }
  }

  class RItem {
    const value: RemoteNode
    const distance: int
    var index: int

    constructor (value: RemoteNode, distance: int)
      ensures this.value == value && this.distance == distance
    {
      this.value := value;
      this.distance := distance;
      this.index := 0;
    }
  }

  /** The id arrays behind a slice of items. */
  ghost function Ids(items: seq<RItem>): (ids: set<array<Byte>>) {
    set it | it in items :: it.value.id
  }

  /** No item that was not there before. */
  ghost predicate Within(now: seq<RItem>, before: seq<RItem>) {
    forall i :: 0 <= i < |now| ==> now[i] in before
  }

  class PriorityQueue {
    var items: seq<RItem>

    /** Every item knows its own position, so no item occurs twice. */
    ghost predicate Valid()
      reads this, items
    {
      forall i :: 0 <= i < |items| ==> items[i].index == i
    }

    ghost function Entries(): (s: seq<Entry<Remote>>)
      reads this, Ids(items)
      ensures |s| == |items|
    {
      seq(|items|, i requires 0 <= i < |items| reads this, Ids(items) =>
            assert items[i] in items; Entry(items[i].value.Snapshot(), items[i].distance))
    }

    constructor ()
      ensures items == [] && Valid()
    {
      items := [];
    }

    method Swap(i: nat, j: nat)
      requires Valid() && i < |items| && j < |items|
      modifies this, items[i], items[j]
      ensures Valid() && Within(items, old(items))
      ensures Entries() == Swapped(old(Entries()), i, j)
    {
      items := items[i := items[j]][j := items[i]];
      items[i].index := i;
      items[j].index := j;
    }

    /** The slice append of heap.Interface's Push. */
    method Append(x: RItem)
      requires Valid() && x !in items
      modifies this, x
      ensures Valid() && items == old(items) + [x]
      ensures Entries() == old(Entries()) + [old(Entry(x.value.Snapshot(), x.distance))]
    {
      x.index := |items|;
      items := items + [x];
    }

    /** heap.Interface's Pop: shortens the slice and marks the item as out of it. */
    method Pop() returns (x: RItem)
      requires Valid() && |items| > 0
      modifies this, items[|items| - 1]
      ensures Valid() && x == old(items)[|old(items)| - 1] && x.index == -1
      ensures items == old(items)[..|old(items)| - 1]
      ensures Entries() == old(Entries())[..|old(items)| - 1]
    {
      x := items[|items| - 1];
      x.index := -1;
      items := items[..|items| - 1];
    }

    method HeapUp(j0: nat)
      requires Valid() && j0 < |items|
      modifies this, items
      ensures Valid() && Within(items, old(items))
      ensures Entries() == Up(old(Entries()), j0)
    {
      var j: nat := j0;
      while true
        invariant Valid() && Within(items, old(items))
        invariant |items| == |old(items)| && j < |items|
        invariant Up(Entries(), j) == Up(old(Entries()), j0)
        decreases j
      {
        var i := Parent(j);
        if i == j || !(items[j].distance > items[i].distance) {
          break;
        }
        Swap(i, j);
        j := i;
      }
    }

    /** One turn of the loop of heap.down: swap with the better child if that one wins. */
    method SinkOnce(i: nat, n: nat) returns (j: nat, more: bool)
      requires Valid() && i < |items| && n <= |items|
      modifies this, items
      ensures Valid() && Within(items, old(items))
      ensures more == Sinks(old(Entries()), i, n)
      ensures more ==> j == BestChild(old(Entries()), i, n) && Entries() == Swapped(old(Entries()), i, j)
      ensures !more ==> Entries() == old(Entries())
    {
      j := 2 * i + 1;
      if j >= n {
        return j, false;
      }
      var j2 := j + 1;
      if j2 < n && items[j2].distance > items[j].distance {
        j := j2;
      }
      more := items[j].distance > items[i].distance;
      if more {
        Swap(i, j);
      }
    }

    method HeapDown(i0: nat, n: nat) returns (moved: bool)
      requires Valid() && i0 < |items| && n <= |items|
      modifies this, items
      ensures Valid() && Within(items, old(items))
      ensures Entries() == Down(old(Entries()), i0, n)
      ensures moved == Sinks(old(Entries()), i0, n)
    {
      var i: nat := i0;
      ghost var s0 := Entries();
      while true
        invariant Valid() && Within(items, old(items))
        invariant |items| == |old(items)| && i0 <= i < |items|
        invariant Down(Entries(), i, n) == Down(s0, i0, n)
        invariant if i == i0 then Entries() == s0 else Sinks(s0, i0, n)
        decreases |items| - i
      {
        var j, more := SinkOnce(i, n);
        if !more {
          break;
        }
        i := j;
      }
      moved := i > i0;
    }

    method HeapPush(x: RItem)
      requires Valid() && x !in items
      modifies this, items, x
      ensures Valid() && Within(items, old(items) + [x])
      ensures Entries() == Push(old(Entries()), old(Entry(x.value.Snapshot(), x.distance)))
    {
      Append(x);
      HeapUp(|items| - 1);
    }

    method HeapRemove(i: nat)
      requires Valid() && i < |items|
      modifies this, items
      ensures Valid() && Within(items, old(items))
      ensures Entries() == Remove(old(Entries()), i)
    {
      var n := |items| - 1;
      if n != i {
        Swap(i, n);
        HeapSift(i, n);
      }
      var _ := Pop();
    }

    method HeapSift(i: nat, n: nat)
      requires Valid() && i < |items| && n <= |items|
      modifies this, items
      ensures Valid() && Within(items, old(items))
      ensures Entries() == Sifted(old(Entries()), i, n)
    {
      var moved := HeapDown(i, n);
      if !moved {
        HeapUp(i);
      }
    }
  }

  class RoutingTable {
    const id: array<Byte>
    const max: int
    var items: PriorityQueue
    var addresses: map<string, RemoteNode>
    ghost var owned: set<RItem>

    ghost predicate Valid()
      reads this, items, owned
    {
      && id.Length == INFOHASH_LENGTH && max >= 1
      && (forall i :: 0 <= i < |items.items| ==> items.items[i] in owned)
      && items.Valid()
      && forall a :: a in addresses ==> addresses[a].addr == a
    }

    ghost function Model(): (t: Table)
      reads this, id, items, Ids(items.items)
    {
      Table(id[..], max, items.Entries(), addresses.Keys)
    }

    constructor (id: array<Byte>, max: int)
      requires id.Length == INFOHASH_LENGTH && max >= 1
      ensures Valid() && fresh(items) && fresh(owned) && this.id == id && this.max == max
      ensures items.items == [] && Model() == Empty(id[..], max)
    {
      this.id := id;
      this.max := max;
      this.items := new PriorityQueue();
      this.owned := {};
      this.addresses := map[];
    }

    method Add(rn: RemoteNode)
      requires Valid()
      modifies this, items, owned
      ensures Valid() && items == old(items) && fresh(owned - old(owned))
      ensures Model() == RT.Add(old(Model()), old(rn.Snapshot()))
    {
      ghost var t, r := Model(), rn.Snapshot();
      if rn.id.Length != 20 {
        assert !Accepts(t, r);
        return;
      }
      var self := Equal(rn.id, id);
      assert Model() == t && rn.Snapshot() == r;
      if self || rn.addr in addresses {
        assert !Accepts(t, r);
        return;
      }
      Insert(rn);
      Trim();
    }

    /** The part of `add` that enters the node into the map and the heap. */
    method Insert(rn: RemoteNode)
      requires Valid() && rn.id.Length == INFOHASH_LENGTH
      modifies this, items, owned
      ensures Valid() && items == old(items) && fresh(owned - old(owned))
      ensures Model() == Pushed(old(Model()), old(rn.Snapshot()))
    {
      ghost var t, r := Model(), rn.Snapshot();
      addresses := addresses[rn.addr := rn];
      var d := Distance(id, rn.id);
      assert Entry(r, d) == Scored(t, r);
      var item := new RItem(rn, d);
      owned := owned + {item};
      assert items.Entries() == t.items;
      items.HeapPush(item);
      assert items.Entries() == Push(t.items, Scored(t, r));
      assert addresses.Keys == t.addresses + {rn.addr};
    }

    /** The eviction loop of `add`; its bound is the length of the slice it shortens. */
    method Trim()
      requires Valid()
      modifies this, items, owned
      ensures Valid() && items == old(items) && owned == old(owned)
      ensures Model() == Trimmed(old(Model()))
    {
      if |items.items| > max {
        EvictAll();
      }
    }

    method EvictAll()
      requires Valid()
      modifies this, items, owned
      ensures Valid() && items == old(items) && owned == old(owned)
      ensures Model() == EvictFrom(old(Model()), max - 1)
    {
      var i := max - 1;
      while i < |items.items|
        invariant Valid() && items == old(items) && owned == old(owned)
        invariant i >= 0 && EvictFrom(Model(), i) == EvictFrom(old(Model()), max - 1)
        decreases |items.items| - i
      {
        EvictAt(i);
        i := i + 1;
      }
    }

    method EvictAt(i: nat)
      requires Valid() && i < |items.items|
      modifies this, items, owned
      ensures Valid() && items == old(items) && owned == old(owned)
      ensures Model() == Evicted(old(Model()), i)
    {
      var victim := items.items[i];
      ghost var t := Model();
      assert victim.value.addr == t.items[i].value.addr;
      addresses := addresses - {victim.value.addr};
      assert items.Entries() == t.items;
      items.HeapRemove(i);
      assert addresses.Keys == t.addresses - {victim.value.addr};
      assert items.Entries() == Remove(t.items, i);
    }

    /** The first n nodes in heap order; all of them for n = 0, none for a negative n. */
    method Get(n0: int) returns (out: seq<RemoteNode>)
      requires Valid()
      ensures |out| == if n0 == 0 || n0 > |items.items| then |items.items| else if n0 < 0 then 0 else n0
      ensures forall i :: 0 <= i < |out| ==> out[i] == items.items[i].value
    {
      var n := if n0 == 0 then |items.items| else n0;
      out := [];
      var i := 0;
      while i < n && i < |items.items|
        invariant 0 <= i <= |items.items| && (i <= n || i == 0)
        invariant |out| == i && forall k :: 0 <= k < i ==> out[k] == items.items[k].value
      {
        out := out + [items.items[i].value];
        i := i + 1;
      }
    }

    method Flush()
      requires Valid()
      modifies this
      ensures Valid() && fresh(items) && fresh(owned)
      ensures Model() == Empty(id[..], max)
    {
      items := new PriorityQueue();
      owned := {};
      addresses := map[];
    }

    method IsEmpty() returns (b: bool)
      requires Valid()
      ensures b <==> Model().items == []
    {
      b := |items.items| == 0;
    }

    /** `get(1)` on a table reached by a run returns a node attaining the best distance. */
    method GetBest(ghost ops: seq<Op>) returns (out: seq<RemoteNode>)
      requires Valid() && max >= 2 && Model() == Run(id[..], max, ops)
      ensures out == [] <==> Accepted(id[..], max, ops) == []
      ensures out != [] ==>
                && |out| == 1 && out[0].Snapshot() in Accepted(id[..], max, ops)
                && forall rn :: rn in Accepted(id[..], max, ops) ==>
                     IsId(rn.id) && out[0].id.Length == 20
                     && CommonPrefix(id[..], rn.id) <= CommonPrefix(id[..], out[0].id[..])
    {
      out := Get(1);
      BestNeverLost(id[..], max, ops);
      RunValid(id[..], max, ops);
      if |items.items| > 0 {
        assert Model().items[0] in multiset(Model().items);
      }
    }
  }
}
