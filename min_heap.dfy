/**
 * `_MinHeap`: a binary min-heap kept in an array, the children of slot i at
 * 2i+1 and 2i+2.  Entries carry a key and a priority `d`; the router pushes
 * `{ key, d }` records.
 */
module PriorityQueue {

  datatype Entry<K> = Entry(key: K, d: real)

  /** `Math.floor((i - 1) / 2)` for a slot i > 0. */
  function Parent(i: nat): nat
    requires i > 0
  {
    (i - 1) / 2
  }

  /** Every parent's priority is at most its child's. */
  ghost predicate IsHeap<K>(s: seq<Entry<K>>) {
    forall j :: 0 < j < |s| ==> s[Parent(j)].d <= s[j].d
  }

  /**
   * Heap order everywhere except between slot i and its parent; the parent of
   * i is still at most every child of i.  This is what `bubbleUp(i)` repairs.
   */
  ghost predicate HeapExceptUp<K>(s: seq<Entry<K>>, i: nat) {
    && (forall j :: 0 < j < |s| && j != i ==> s[Parent(j)].d <= s[j].d)
    && (forall j :: 0 < j < |s| && Parent(j) == i && i > 0 ==> s[Parent(i)].d <= s[j].d)
  }

  /**
   * Heap order everywhere except between slot i and its children; the parent of
   * i is at most every child of i.  This is what `bubbleDown(i)` repairs.
   */
  ghost predicate HeapExceptDown<K>(s: seq<Entry<K>>, i: nat) {
    && (forall j :: 0 < j < |s| && Parent(j) != i ==> s[Parent(j)].d <= s[j].d)
    && (forall j :: 0 < j < |s| && Parent(j) == i && i > 0 ==> s[Parent(i)].d <= s[j].d)
  }

  /** The entry at the root of a heap has the least priority. */
  lemma {:induction false} RootBelow<K>(s: seq<Entry<K>>, i: nat)
    requires IsHeap(s) && i < |s|
    ensures s[0].d <= s[i].d
    decreases i
  {
    if i > 0 {
      RootBelow(s, Parent(i));
    }
  }

  lemma RootIsMin<K>(s: seq<Entry<K>>)
    requires IsHeap(s) && |s| > 0
    ensures forall i :: 0 <= i < |s| ==> s[0].d <= s[i].d
  {
    forall i | 0 <= i < |s| {
      RootBelow(s, i);
    }
  }

  /** Exchanging two slots. */
  function Swap<K>(s: seq<Entry<K>>, i: nat, j: nat): (r: seq<Entry<K>>)
    requires i < |s| && j < |s|
    ensures |r| == |s| && multiset(r) == multiset(s)
  {
    s[i := s[j]][j := s[i]]
  }

  /** One step of `bubbleUp`: after the swap only the parent slot may be out of order. */
  lemma SwapUp<K>(s: seq<Entry<K>>, k: nat)
    requires 0 < k < |s| && HeapExceptUp(s, k) && s[k].d < s[Parent(k)].d
    ensures HeapExceptUp(Swap(s, Parent(k), k), Parent(k))
  {
    var p := Parent(k);
    var t := Swap(s, p, k);
    forall j | 0 < j < |t| && j != p
      ensures t[Parent(j)].d <= t[j].d
    {
      if j == k {
      } else if Parent(j) == k {
        assert t[Parent(j)] == s[p];
      } else if Parent(j) == p {
        assert t[Parent(j)] == s[k] && t[j] == s[j];
      }
    }
    forall j | 0 < j < |t| && Parent(j) == p && p > 0
      ensures t[Parent(p)].d <= t[j].d
    {
      assert t[Parent(p)] == s[Parent(p)];
      assert s[Parent(p)].d <= s[p].d;
      if j != k {
        assert t[j] == s[j] && s[p].d <= s[j].d;
      }
    }
  }

  /**
   * One step of `bubbleDown`: m is the child of k with the least priority and
   * it is below that of k; after the swap only slot m may be out of order.
   */
  lemma SwapDown<K>(s: seq<Entry<K>>, k: nat, m: nat)
    requires k < m < |s| && (m == 2 * k + 1 || m == 2 * k + 2) && HeapExceptDown(s, k)
    requires s[m].d < s[k].d
    requires 2 * k + 1 < |s| ==> s[m].d <= s[2 * k + 1].d
    requires 2 * k + 2 < |s| ==> s[m].d <= s[2 * k + 2].d
    ensures HeapExceptDown(Swap(s, m, k), m)
  {
    var t := Swap(s, m, k);
    assert Parent(m) == k;
    forall j | 0 < j < |t| && Parent(j) != m
      ensures t[Parent(j)].d <= t[j].d
    {
      if j == m {
      } else if Parent(j) == k {
        assert t[j] == s[j];
      } else if j == k {
        assert t[Parent(j)] == s[Parent(k)] && t[j] == s[m];
      }
    }
    forall j | 0 < j < |t| && Parent(j) == m
      ensures t[Parent(m)].d <= t[j].d
    {
      assert t[Parent(m)] == s[m] && t[j] == s[j];
    }
  }

  /** `bubbleDown` stops when neither child of k is smaller: the heap is whole again. */
  lemma DownSettled<K>(s: seq<Entry<K>>, k: nat)
    requires k < |s| && HeapExceptDown(s, k)
    requires 2 * k + 1 < |s| ==> s[k].d <= s[2 * k + 1].d
    requires 2 * k + 2 < |s| ==> s[k].d <= s[2 * k + 2].d
    ensures IsHeap(s)
  {
    forall j | 0 < j < |s| && Parent(j) == k
      ensures s[Parent(j)].d <= s[j].d
    {
      assert j == 2 * k + 1 || j == 2 * k + 2;
    }
  }

  /**
   * `this.a[0] = this.a.pop()`: the last entry replaces the root; only the root
   * may now be out of order, and exactly the old root has gone.
   */
  lemma LastToRoot<K>(s: seq<Entry<K>>)
    requires IsHeap(s) && |s| >= 2
    ensures HeapExceptDown(s[..|s| - 1][0 := s[|s| - 1]], 0)
    ensures multiset(s[..|s| - 1][0 := s[|s| - 1]]) == multiset(s) - multiset{s[0]}
  {
    var t := s[..|s| - 1][0 := s[|s| - 1]];
    var mid := s[1..|s| - 1];
    assert s == [s[0]] + mid + [s[|s| - 1]];
    assert t == [s[|s| - 1]] + mid;
    assert multiset(s) == multiset{s[0]} + multiset(mid) + multiset{s[|s| - 1]};
    forall j | 0 < j < |t| && Parent(j) != 0
      ensures t[Parent(j)].d <= t[j].d
    {
      assert t[Parent(j)] == s[Parent(j)] && t[j] == s[j];
    }
  }

  class MinHeap<K> {
    /** The array `a`. */
    var a: seq<Entry<K>>

    ghost predicate Valid()
      reads this
    {
      IsHeap(a)
    }

    constructor()
      ensures Valid() && a == []
    {
      a := [];
    }

    /** `isEmpty()`. */
    function IsEmpty(): bool
      reads this
    {
      |a| == 0
    }

    /** `push(x)`: appends and sifts up; exactly one entry is added. */
    method Push(x: Entry<K>)
      requires Valid()
      modifies this
      ensures Valid()
      ensures multiset(a) == multiset(old(a)) + multiset{x}
      ensures |a| == |old(a)| + 1
    {
      a := a + [x];
      BubbleUp(|a| - 1);
    }

    /**
     * `pop()` on a non-empty heap: returns the root, which has the least
     * priority, and removes exactly that entry.  With one entry the array is
     * simply emptied; otherwise the last entry moves to the root and sifts down.
     */
    method Pop() returns (top: Entry<K>)
      requires Valid() && |a| > 0
      modifies this
      ensures Valid()
      ensures top == old(a[0])
      ensures forall x :: x in multiset(old(a)) ==> top.d <= x.d
      ensures top in multiset(old(a)) && multiset(a) == multiset(old(a)) - multiset{top}
      ensures |a| == |old(a)| - 1
    {
      RootIsMin(a);
      if |a| == 1 {
        top := a[0];
        a := [];
        return;
      }
      top := a[0];
      LastToRoot(a);
      var last := a[|a| - 1];
      a := a[..|a| - 1];
      a := a[0 := last];
      BubbleDown(0);
    }

    /** `bubbleUp(i)`: swaps slot i with its parent while the parent is larger. */
    method BubbleUp(i: nat)
      requires i < |a| && HeapExceptUp(a, i)
      modifies this
      ensures Valid()
      ensures multiset(a) == multiset(old(a)) && |a| == |old(a)|
    {
      var k: nat := i;
      while k > 0
        invariant k < |a| && |a| == |old(a)|
        invariant HeapExceptUp(a, k)
        invariant multiset(a) == multiset(old(a))
      {
        var p := Parent(k);
        if a[p].d <= a[k].d {
          break;
        }
        SwapUp(a, k);
        a := Swap(a, p, k);
        k := p;
      }
    }

    /** `bubbleDown(i)`: swaps slot i with its strictly smaller child, the smaller of the two. */
    method BubbleDown(i: nat)
      requires i < |a| && HeapExceptDown(a, i)
      modifies this
      ensures Valid()
      ensures multiset(a) == multiset(old(a)) && |a| == |old(a)|
    {
      var n := |a|;
      var k: nat := i;
      while true
        invariant k < n && |a| == n
        invariant HeapExceptDown(a, k)
        invariant multiset(a) == multiset(old(a))
        decreases n - k
      {
        var l, r := 2 * k + 1, 2 * k + 2;
        var m := k;
        if l < n && a[l].d < a[m].d {
          m := l;
        }
        if r < n && a[r].d < a[m].d {
          m := r;
        }
        if m == k {
          DownSettled(a, k);
          break;
        }
        SwapDown(a, k, m);
        a := Swap(a, m, k);
        k := m;
      }
    }
  }
}
