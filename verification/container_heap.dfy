/** The operations of Go's container/heap package that main.go applies to a
    frame heap: Init, Push and Pop, with the sift-up (`up`) and sift-down
    (`down`) steps they are built from. The package calls only Len, Less,
    Swap, Push and Pop of the heap it is given, and so do these methods.

    The heap invariant and the states of the sift loops are quantified over
    slots with `Parent(k)` as their trigger, so that a fact about one link is
    drawn only where that link is mentioned. */
module ContainerHeap {
  import opened Frames

  /** The slot of the parent of slot k > 0. Both operands are non-negative
      there, so Dafny's division agrees with Go's. */
  function Parent(k: int): int
  {
    (k - 1) / 2
  }

  /** Every slot k below `n` whose parent is at or after slot `lo` holds an
      index no smaller than its parent's: no child there is Less than its
      parent. */
  ghost predicate HeapFrom<Img>(s: seq<Frame<Img>>, n: int, lo: nat)
    requires n <= |s|
  {
    forall k {:trigger Parent(k)} :: 0 < k < n && lo <= Parent(k) ==> s[Parent(k)].i <= s[k].i
  }

  /** The heap invariant container/heap maintains over the whole slice. */
  ghost predicate IsHeap<Img>(s: seq<Frame<Img>>)
  {
    HeapFrom(s, |s|, 0)
  }

  /** The state of a sift-up at slot `j`: every parent link holds except
      possibly the one into `j`, and `j`'s parent is no larger than `j`'s
      children, so moving `j`'s frame up keeps the links below it. */
  ghost predicate RisingAt<Img>(s: seq<Frame<Img>>, j: int)
    requires 0 <= j < |s|
  {
    && (forall k {:trigger Parent(k)} :: 0 < k < |s| && k != j ==> s[Parent(k)].i <= s[k].i)
    && (0 < j ==> forall k {:trigger Parent(k)} :: 0 < k < |s| && Parent(k) == j ==> s[Parent(j)].i <= s[k].i)
  }

  /** The state of a sift-down at slot `i` of the prefix of length `n`, from
      root slot `lo`: every link below `lo` holds except those out of `i`,
      and `i`'s parent is no larger than `i`'s children. */
  ghost predicate SinkingAt<Img>(s: seq<Frame<Img>>, n: int, lo: nat, i: int)
    requires n <= |s|
  {
    && (forall k {:trigger Parent(k)} :: 0 < k < n && lo <= Parent(k) && Parent(k) != i ==> s[Parent(k)].i <= s[k].i)
    && (lo < i ==> forall k {:trigger Parent(k)} :: 0 < k < n && Parent(k) == i ==> s[Parent(i)].i <= s[k].i)
  }

  /** The heap invariant as container/heap documents it, in terms of the
      heap's own `Less`: no slot is Less than its parent slot. */
  ghost predicate NoChildLessThanParent<Img>(h: FrameHeap<Img>)
    reads h
  {
    forall k {:trigger Parent(k)} :: 0 < k < |h.data| ==> !h.Less(k, Parent(k))
  }

  /** The documented invariant and `IsHeap`, stated on frame indices, are the
      same condition: `Less` looks at nothing but the indices. */
  lemma HeapInvariantIsIndexOrder<Img>(h: FrameHeap<Img>)
    ensures NoChildLessThanParent(h) <==> IsHeap(h.data)
  {
  }

  /** The frame at the root of a heap has the least index of all. */
  lemma {:induction false} HeapRootIsMinimal<Img>(s: seq<Frame<Img>>, k: int)
    requires IsHeap(s) && 0 <= k < |s|
    ensures s[0].i <= s[k].i
    decreases k
  {
    if k > 0 {
      HeapRootIsMinimal(s, Parent(k));
    }
  }

  /** A bound below every index of a slice is a bound below every index of
      any rearrangement of it. */
  lemma LowerBoundCarriesOver<Img>(a: seq<Frame<Img>>, b: seq<Frame<Img>>, bound: int)
    requires multiset(a) == multiset(b)
    requires forall k :: 0 <= k < |a| ==> bound <= a[k].i
    ensures forall k :: 0 <= k < |b| ==> bound <= b[k].i
  {
    forall k | 0 <= k < |b|
      ensures bound <= b[k].i
    {
      assert b[k] in multiset(a);
    }
  }

  /** `up`: moves the frame in slot `j0` towards the root while it is Less
      than its parent. */
  method Up<Img>(h: FrameHeap<Img>, j0: int)
    requires 0 <= j0 < |h.data| && RisingAt(h.data, j0)
    modifies h
    ensures IsHeap(h.data)
    ensures multiset(h.data) == multiset(old(h.data))
  {
    var j := j0;
    while true
      invariant 0 <= j < |h.data|
      invariant multiset(h.data) == multiset(old(h.data))
      invariant RisingAt(h.data, j)
      decreases j
    {
      // Go computes the parent as (j - 1) / 2, truncating toward zero,
      // which gives 0 at the root; Dafny's division would give -1 there.
      var i := if j == 0 then 0 else Parent(j);
      if i == j || !h.Less(j, i) {
        break;
      }
      h.Swap(i, j);
      j := i;
    }
  }

  /** One step of a sift-down: swapping slot `i` with its lesser child `j`,
      when that child is Less than it, moves the sift-down to `j`. */
  lemma SinkStep<Img>(s: seq<Frame<Img>>, t: seq<Frame<Img>>, n: int, lo: nat, i: int, j: int)
    requires n <= |s| && lo <= i && (i == lo || lo <= Parent(i))
    requires SinkingAt(s, n, lo, i)
    requires j < n && (j == 2 * i + 1 || j == 2 * i + 2)
    requires s[j].i < s[i].i
    requires j == 2 * i + 1 && j + 1 < n ==> s[j].i <= s[j + 1].i
    requires j == 2 * i + 2 ==> s[j].i <= s[j - 1].i
    requires t == s[i := s[j]][j := s[i]]
    ensures SinkingAt(t, n, lo, j)
  {
  }

  /** A sift-down stops at slot `i` when no child of `i` in the prefix is
      Less than it; the links from `lo` down then all hold. */
  lemma SinkDone<Img>(s: seq<Frame<Img>>, n: int, lo: nat, i: int)
    requires n <= |s| && lo <= i && (i == lo || lo <= Parent(i))
    requires SinkingAt(s, n, lo, i)
    requires 2 * i + 1 < n ==> s[i].i <= s[2 * i + 1].i
    requires 2 * i + 2 < n ==> s[i].i <= s[2 * i + 2].i
    ensures HeapFrom(s, n, lo)
  {
  }

  /** `down`: moves the frame in slot `i0` away from the root, within the
      prefix of length `n`, while one of its children is Less than it,
      swapping with the lesser child (the left one on a tie). */
  method Down<Img>(h: FrameHeap<Img>, i0: int, n: int)
    requires 0 <= i0 && 0 <= n <= |h.data|
    requires HeapFrom(h.data, n, i0 + 1)
    modifies h
    ensures |h.data| == |old(h.data)|
    ensures HeapFrom(h.data, n, i0)
    ensures i0 <= |h.data| ==> h.data[..i0] == old(h.data)[..i0]
    ensures n <= i0 ==> h.data == old(h.data)
    ensures h.data[n..] == old(h.data)[n..]
    ensures multiset(h.data) == multiset(old(h.data))
  {
    var i := i0;
    while true
      invariant |h.data| == |old(h.data)|
      invariant multiset(h.data) == multiset(old(h.data))
      invariant i0 <= |h.data| ==> h.data[..i0] == old(h.data)[..i0]
      invariant n <= i0 ==> h.data == old(h.data)
      invariant h.data[n..] == old(h.data)[n..]
      invariant i0 <= i && (i == i0 || (i < n && i0 <= Parent(i)))
      invariant SinkingAt(h.data, n, i0, i)
      decreases n - i
    {
      var j1 := 2 * i + 1;
      if j1 >= n {
        SinkDone(h.data, n, i0, i);
        break;
      }
      var j := j1;
      var j2 := j1 + 1;
      if j2 < n && h.Less(j2, j1) {
        j := j2;
      }
      if !h.Less(j, i) {
        SinkDone(h.data, n, i0, i);
        break;
      }
      assert Parent(j) == i;
      SinkStep(h.data, h.data[i := h.data[j]][j := h.data[i]], n, i0, i, j);
      h.Swap(i, j);
      i := j;
    }
  }

  /** `heap.Init`: establishes the heap invariant by sifting down every slot
      that has a child, from the last such slot back to the root. */
  method Init<Img>(h: FrameHeap<Img>)
    modifies h
    ensures IsHeap(h.data)
    ensures multiset(h.data) == multiset(old(h.data))
  {
    var n := h.Len();
    var i := n / 2 - 1;
    while i >= 0
      invariant -1 <= i < n / 2
      invariant |h.data| == n
      invariant multiset(h.data) == multiset(old(h.data))
      invariant HeapFrom(h.data, n, i + 1)
    {
      Down(h, i, n);
      i := i - 1;
    }
  }

  /** `heap.Push`: appends the frame and sifts it up. */
  method Push<Img>(h: FrameHeap<Img>, x: Frame<Img>)
    requires IsHeap(h.data)
    modifies h
    ensures IsHeap(h.data)
    ensures multiset(h.data) == multiset(old(h.data)) + multiset{x}
  {
    h.Push(x);
    Up(h, h.Len() - 1);
  }

  /** `heap.Pop`: swaps the root into the last slot, sifts the new root down
      over the other slots and removes the last slot. It returns the frame
      that was at the root, whose index is the least of all. */
  method Pop<Img>(h: FrameHeap<Img>) returns (x: Frame<Img>)
    requires IsHeap(h.data) && |h.data| > 0
    modifies h
    ensures x == old(h.data)[0]
    ensures forall k :: 0 <= k < |old(h.data)| ==> x.i <= old(h.data)[k].i
    ensures forall k :: 0 <= k < |h.data| ==> x.i <= h.data[k].i
    ensures multiset(h.data) == multiset(old(h.data)) - multiset{x}
    ensures |h.data| == |old(h.data)| - 1
    ensures IsHeap(h.data)
  {
    forall k | 0 <= k < |h.data|
      ensures h.data[0].i <= h.data[k].i
    {
      HeapRootIsMinimal(h.data, k);
    }
    var n := h.Len() - 1;
    h.Swap(0, n);
    Down(h, 0, n);
    ghost var before := h.data;
    x := h.Pop();
    assert h.data == before[..n];
    LowerBoundCarriesOver(old(h.data), before, x.i);
  }
}
