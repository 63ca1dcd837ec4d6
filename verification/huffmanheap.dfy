/** minheap_down() and minheap_heapify() (hwzip/huffman.c, lines 94-146).  The heap of n elements is in
    places 1 to n of an array that holds other things beyond it. */
module HuffmanHeap {
  import OptimalCodes

  /** Every element with a parent from place i on is not less than its parent. */
  ghost predicate Order(s: seq<nat>, n: nat, i: nat) {
    n < |s| && forall k :: 2 * i <= k <= n && 2 <= k ==> s[k / 2] <= s[k]
  }

  /** The same, but the element at place c may be too large; below it there is nothing that is less
      than its own parent. */
  ghost predicate OrderBut(s: seq<nat>, n: nat, i: nat, c: nat) {
    && 1 <= i <= c <= n < |s|
    && (forall k :: 2 * i <= k <= n && k / 2 != c ==> s[k / 2] <= s[k])
    && (forall k :: 2 * i <= k <= n && k / 2 == c && c / 2 >= i ==> s[c / 2] <= s[k])
  }

  /** What moving elements around in the heap does not change. */
  ghost predicate Rearranged(s: seq<nat>, t: seq<nat>, n: nat) {
    && n < |s| == |t| && s[0] == t[0] && s[n + 1..] == t[n + 1..]
    && multiset(s[1..n + 1]) == multiset(t[1..n + 1])
  }

  function Swapped(s: seq<nat>, i: nat, j: nat): (t: seq<nat>)
    requires i < |s| && j < |s|
  {
    s[i := s[j]][j := s[i]]
  }

  lemma SwapRearranges(s: seq<nat>, n: nat, i: nat, j: nat)
    requires 1 <= i <= n < |s| && 1 <= j <= n && i != j
    ensures Rearranged(s, Swapped(s, i, j), n)
  {
    var t, part := Swapped(s, i, j), s[1..n + 1];
    assert t[1..n + 1] == part[i - 1 := part[j - 1]][j - 1 := part[i - 1]];
    OptimalCodes.SwapMultiset(part, i - 1, j - 1);
    assert t[n + 1..] == s[n + 1..];
  }

  lemma RearrangedTrans(s: seq<nat>, t: seq<nat>, u: seq<nat>, n: nat)
    requires Rearranged(s, t, n) && Rearranged(t, u, n)
    ensures Rearranged(s, u, n)
  {
  }

  /** Swapping an element with its lesser child moves the place that may be wrong down. */
  lemma SwapOrder(s: seq<nat>, n: nat, i: nat, c: nat, m: nat)
    requires OrderBut(s, n, i, c) && m <= n && (m == 2 * c || m == 2 * c + 1) && s[m] < s[c]
    requires forall k :: 2 * c <= k <= 2 * c + 1 && k <= n ==> s[m] <= s[k]
    ensures OrderBut(Swapped(s, m, c), n, i, m)
  {
  }

  lemma OrderDone(s: seq<nat>, n: nat, i: nat, c: nat)
    requires OrderBut(s, n, i, c)
    requires forall k :: 2 * c <= k <= 2 * c + 1 && k <= n ==> s[c] <= s[k]
    ensures Order(s, n, i)
  {
  }

  lemma OrderStart(s: seq<nat>, n: nat, i: nat)
    requires Order(s, n, i + 1) && 1 <= i <= n
    ensures OrderBut(s, n, i, i)
  {
  }

  /** minheap_down() */
  method MinheapDown(heap: array<nat>, n: nat, i: nat)
    requires 1 <= i <= n < heap.Length && Order(heap[..], n, i + 1)
    modifies heap
    ensures Order(heap[..], n, i) && Rearranged(old(heap[..]), heap[..], n)
  {
    hide Order, OrderBut, Rearranged;
    ghost var s := heap[..];
    OrderStart(s, n, i);
    RearrangedSame(s, n);
    var c := i;
    while c * 2 <= n
      invariant i <= c <= n && OrderBut(heap[..], n, i, c) && Rearranged(s, heap[..], n)
      decreases n - c
    {
      var left, right := c * 2, c * 2 + 1;
      var min := left;
      if right <= n && heap[right] < heap[left] {
        min := right;
      }
      if heap[min] < heap[c] {
        ghost var t := heap[..];
        SwapOrder(t, n, i, c, min);
        SwapRearranges(t, n, min, c);
        heap[min], heap[c] := heap[c], heap[min];
        assert heap[..] == Swapped(t, min, c);
        RearrangedTrans(s, t, heap[..], n);
        c := min;
      } else {
        break;
      }
    }
    OrderDone(heap[..], n, i, c);
  }

  lemma RearrangedSame(s: seq<nat>, n: nat)
    requires n < |s|
    ensures Rearranged(s, s, n)
  {
  }

  /** minheap_heapify(): Floyd's algorithm. */
  method MinheapHeapify(heap: array<nat>, n: nat)
    requires n < heap.Length
    modifies heap
    ensures Order(heap[..], n, 1) && Rearranged(old(heap[..]), heap[..], n)
  {
    hide Rearranged;
    ghost var s := heap[..];
    RearrangedSame(s, n);
    var i: nat := n / 2;
    while i >= 1
      invariant i <= n / 2 && Order(heap[..], n, i + 1) && Rearranged(s, heap[..], n)
    {
      ghost var t := heap[..];
      MinheapDown(heap, n, i);
      RearrangedTrans(s, t, heap[..], n);
      i := i - 1;
    }
  }

  /** The least element is at the root. */
  lemma {:induction false} RootIsLeast(s: seq<nat>, n: nat, k: nat)
    requires Order(s, n, 1) && 1 <= k <= n
    ensures s[1] <= s[k]
  {
    if k > 1 {
      RootIsLeast(s, n, k / 2);
    }
  }
}
