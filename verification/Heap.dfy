/**
  Go's `container/heap` over a slice of scored entries, as functions on sequences, with the
  order of `priorityQueue`: an entry with the larger distance is nearer the root
  (dht/routing_table.go).
 */
module Heap {

  datatype Entry<T> = Entry(value: T, distance: int)

  /** `(j - 1) / 2` with Go's division, which truncates: the root is its own parent. */
  function Parent(j: nat): (i: nat)
    ensures i <= j
    ensures j > 0 ==> i < j && (j == 2 * i + 1 || j == 2 * i + 2)
  {
    if j == 0 then 0 else (j - 1) / 2
  }

  predicate Less<T>(s: seq<Entry<T>>, i: nat, j: nat)
    requires i < |s| && j < |s|
  {
    s[i].distance > s[j].distance
  }

  /** Heap order on the first n entries: no entry beats its parent. */
  ghost predicate Ordered<T>(s: seq<Entry<T>>, n: nat)
    requires n <= |s|
  {
    forall j :: 0 < j < n ==> !Less(s, j, Parent(j))
  }

  function Swapped<T>(s: seq<Entry<T>>, i: nat, j: nat): (r: seq<Entry<T>>)
    requires i < |s| && j < |s|
    ensures |r| == |s|
    ensures r[i] == s[j] && r[j] == s[i]
    ensures forall k :: 0 <= k < |s| && k != i && k != j ==> r[k] == s[k]
  {
    s[i := s[j]][j := s[i]]
  }

  /** heap.up: the entry at j climbs while it beats its parent. */
  function Up<T>(s: seq<Entry<T>>, j: nat): (r: seq<Entry<T>>)
    requires j < |s|
    ensures |r| == |s|
    decreases j
  {
    var i := Parent(j);
    if i == j || !Less(s, j, i) then s else Up(Swapped(s, i, j), i)
  }

  /** The child of i that heap.down compares with: the right one only if it beats the left. */
  function BestChild<T>(s: seq<Entry<T>>, i: nat, n: nat): (j: nat)
    requires 2 * i + 1 < n <= |s|
    ensures i < j < n && Parent(j) == i
  {
    if 2 * i + 2 < n && Less(s, 2 * i + 2, 2 * i + 1) then 2 * i + 2 else 2 * i + 1
  }

  /** Whether heap.down moves the entry at i, which is what it returns. */
  predicate Sinks<T>(s: seq<Entry<T>>, i: nat, n: nat)
    requires i < |s| && n <= |s|
  {
    2 * i + 1 < n && Less(s, BestChild(s, i, n), i)
  }

  /** heap.down: the entry at i sinks below its better child, within the first n entries. */
  function Down<T>(s: seq<Entry<T>>, i: nat, n: nat): (r: seq<Entry<T>>)
    requires i < |s| && n <= |s|
    ensures |r| == |s|
    decreases |s| - i
  {
    if !Sinks(s, i, n) then s else
      var j := BestChild(s, i, n);
      Down(Swapped(s, i, j), j, n)
  }

  /** heap.Push. */
  function Push<T>(s: seq<Entry<T>>, e: Entry<T>): (r: seq<Entry<T>>)
    ensures |r| == |s| + 1
  {
    Up(s + [e], |s|)
  }

  /** What heap.Remove leaves in the slice before its final Pop. */
  function Unlinked<T>(s: seq<Entry<T>>, i: nat): (r: seq<Entry<T>>)
    requires i < |s|
    ensures |r| == |s|
  {
    var n := |s| - 1;
    if i == n then s else Sifted(Swapped(s, i, n), i, n)
  }

  function Sifted<T>(t: seq<Entry<T>>, i: nat, n: nat): (r: seq<Entry<T>>)
    requires i < |t| && n <= |t|
    ensures |r| == |t|
  {
    if Sinks(t, i, n) then Down(t, i, n) else Up(t, i)
  }

  /** heap.Remove. */
  function Remove<T>(s: seq<Entry<T>>, i: nat): (r: seq<Entry<T>>)
    requires i < |s|
    ensures |r| == |s| - 1
  {
    Unlinked(s, i)[..|s| - 1]
  }

  // ---------- contents ----------

  lemma SwappedPermutes<T>(s: seq<Entry<T>>, i: nat, j: nat)
    requires i < |s| && j < |s|
    ensures multiset(Swapped(s, i, j)) == multiset(s)
  {
  }

  /** Climbing keeps the entries, and moves none but j and entries at or below its parent. */
  lemma {:induction false} UpPermutes<T>(s: seq<Entry<T>>, j: nat)
    requires j < |s|
    ensures multiset(Up(s, j)) == multiset(s)
    ensures forall k :: Parent(j) < k < |s| && k != j ==> Up(s, j)[k] == s[k]
    decreases j
  {
    var i := Parent(j);
    if i != j && Less(s, j, i) {
      SwappedPermutes(s, i, j);
      UpPermutes(Swapped(s, i, j), i);
    }
  }

  lemma {:induction false} DownPermutes<T>(s: seq<Entry<T>>, i: nat, n: nat)
    requires i < |s| && n <= |s|
    ensures multiset(Down(s, i, n)) == multiset(s)
    ensures forall k :: n <= k < |s| ==> Down(s, i, n)[k] == s[k]
    decreases |s| - i
  {
    if Sinks(s, i, n) {
      var j := BestChild(s, i, n);
      SwappedPermutes(s, i, j);
      DownPermutes(Swapped(s, i, j), j, n);
    }
  }

  lemma PushAdds<T>(s: seq<Entry<T>>, e: Entry<T>)
    ensures multiset(Push(s, e)) == multiset(s) + multiset{e}
  {
    UpPermutes(s + [e], |s|);
  }

  lemma UnlinkedPermutes<T>(s: seq<Entry<T>>, i: nat)
    requires i < |s|
    ensures multiset(Unlinked(s, i)) == multiset(s)
    ensures Unlinked(s, i)[|s| - 1] == s[i]
  {
    var n := |s| - 1;
    if i != n {
      SwappedPermutes(s, i, n);
      SiftPermutes(Swapped(s, i, n), i, n);
    }
  }

  lemma SiftPermutes<T>(t: seq<Entry<T>>, i: nat, n: nat)
    requires i < n < |t|
    ensures multiset(Sifted(t, i, n)) == multiset(t) && Sifted(t, i, n)[n] == t[n]
  {
    DownPermutes(t, i, n);
    UpPermutes(t, i);
  }

  lemma DropLastMultiset<T>(u: seq<T>)
    requires |u| > 0
    ensures multiset(u[..|u| - 1]) == multiset(u) - multiset{u[|u| - 1]}
  {
    assert u == u[..|u| - 1] + [u[|u| - 1]];
  }

  /** Removing at i takes out that entry and no other. */
  lemma RemoveTakes<T>(s: seq<Entry<T>>, i: nat)
    requires i < |s|
    ensures multiset(Remove(s, i)) == multiset(s) - multiset{s[i]}
  {
    UnlinkedPermutes(s, i);
    DropLastMultiset(Unlinked(s, i));
  }

  // ---------- order ----------

  /** Heap order except between j and its parent; j's children still suit its parent. */
  ghost predicate OrderedButUp<T>(s: seq<Entry<T>>, j: nat, n: nat)
    requires j < n <= |s|
  {
    && (forall k :: 0 < k < n && k != j ==> !Less(s, k, Parent(k)))
    && (forall k :: 0 < k < n && Parent(k) == j ==> !Less(s, k, Parent(j)))
  }

  /** Heap order except around i; i's children still suit its parent. */
  ghost predicate OrderedButAt<T>(s: seq<Entry<T>>, i: nat, n: nat)
    requires i < n <= |s|
  {
    && (forall k :: 0 < k < n && k != i && Parent(k) != i ==> !Less(s, k, Parent(k)))
    && (forall k :: 0 < i && 0 < k < n && Parent(k) == i ==> !Less(s, k, Parent(i)))
  }

  lemma {:induction false} UpRestores<T>(s: seq<Entry<T>>, j: nat, n: nat)
    requires j < n <= |s| && OrderedButUp(s, j, n)
    ensures Ordered(Up(s, j), n)
    decreases j
  {
    var i := Parent(j);
    if i != j && Less(s, j, i) {
      var t := Swapped(s, i, j);
      forall k | 0 < k < n && k != i
        ensures !Less(t, k, Parent(k))
      {
        assert k != j ==> !Less(s, k, Parent(k));
      }
      forall k | 0 < k < n && Parent(k) == i
        ensures !Less(t, k, Parent(i))
      {
        assert i > 0 ==> !Less(s, i, Parent(i));
        assert k != j ==> !Less(s, k, i);
      }
      UpRestores(t, i, n);
    }
  }

  /** Sinking an entry that must sink repairs the order above it and below it. */
  lemma {:induction false} DownRestores<T>(s: seq<Entry<T>>, i: nat, n: nat)
    requires i < n <= |s| && OrderedButAt(s, i, n)
    requires Sinks(s, i, n) || i == 0 || !Less(s, i, Parent(i))
    ensures Ordered(Down(s, i, n), n)
    decreases |s| - i
  {
    if Sinks(s, i, n) {
      var j := BestChild(s, i, n);
      var t := Swapped(s, i, j);
      forall k | 0 < k < n && k != j && Parent(k) != j
        ensures !Less(t, k, Parent(k))
      {
        if k == i {
          assert !Less(s, j, Parent(i));
        } else if Parent(k) == i {
          assert k == 2 * i + 1 || k == 2 * i + 2;
        }
      }
      forall k | 0 < k < n && Parent(k) == j
        ensures !Less(t, k, Parent(j))
      {
        assert !Less(s, k, Parent(k));
      }
      DownRestores(t, j, n);
    } else {
      forall k | 0 < k < n
        ensures !Less(s, k, Parent(k))
      {
        if Parent(k) == i {
          assert k == 2 * i + 1 || k == 2 * i + 2;
        }
      }
    }
  }

  lemma PushOrdered<T>(s: seq<Entry<T>>, e: Entry<T>)
    requires Ordered(s, |s|)
    ensures Ordered(Push(s, e), |s| + 1)
  {
    var t := s + [e];
    forall k | 0 < k < |s|
      ensures !Less(t, k, Parent(k))
    {
      assert !Less(s, k, Parent(k));
    }
    UpRestores(t, |s|, |s| + 1);
  }

  /** heap.Remove keeps heap order wherever it is asked to remove. */
  lemma RemoveOrdered<T>(s: seq<Entry<T>>, i: nat)
    requires i < |s| && Ordered(s, |s|)
    ensures Ordered(Remove(s, i), |s| - 1)
  {
    var n := |s| - 1;
    var u := Unlinked(s, i);
    assert Ordered(u, n) by {
      if i == n {
        assert forall k :: 0 < k < n ==> !Less(s, k, Parent(k));
      } else {
        var t := Swapped(s, i, n);
        RemovalGap(s, i);
        if Sinks(t, i, n) {
          DownRestores(t, i, n);
        } else {
          UpAfterNoSink(t, i, n);
        }
      }
    }
    forall k | 0 < k < n
      ensures !Less(u[..n], k, Parent(k))
    {
      assert !Less(u, k, Parent(k));
    }
  }

  lemma RemovalGap<T>(s: seq<Entry<T>>, i: nat)
    requires i < |s| - 1 && Ordered(s, |s|)
    ensures OrderedButAt(Swapped(s, i, |s| - 1), i, |s| - 1)
  {
    var n := |s| - 1;
    var t := Swapped(s, i, n);
    forall k | 0 < k < n && k != i && Parent(k) != i
      ensures !Less(t, k, Parent(k))
    {
      assert !Less(s, k, Parent(k));
    }
    forall k | 0 < i && 0 < k < n && Parent(k) == i
      ensures !Less(t, k, Parent(i))
    {
      assert !Less(s, k, i) && !Less(s, i, Parent(i));
    }
  }

  lemma UpAfterNoSink<T>(t: seq<Entry<T>>, i: nat, n: nat)
    requires i < n <= |t| && OrderedButAt(t, i, n) && !Sinks(t, i, n)
    ensures Ordered(Up(t, i), n)
  {
    forall k | 0 < k < n && k != i
      ensures !Less(t, k, Parent(k))
    {
      if Parent(k) == i {
        assert k == 2 * i + 1 || k == 2 * i + 2;
      }
    }
    UpRestores(t, i, n);
  }

  /** In heap order nothing beats the root. */
  lemma {:induction false} RootIsBest<T>(s: seq<Entry<T>>, k: nat)
    requires k < |s| && Ordered(s, |s|)
    ensures s[0].distance >= s[k].distance
    decreases k
  {
    if k > 0 {
      RootIsBest(s, Parent(k));
      assert !Less(s, k, Parent(k));
    }
  }
}
