/** The reordering stage of main.go: frames rendered concurrently arrive in
    any order, are pushed onto a frame heap, and are popped back out in
    index order to give the frames and per-frame delays of the animation. */
module Spin {
  import opened Frames
  import ContainerHeap

  /** No frame comes after one with a larger index. */
  ghost predicate SortedByIndex<Img>(fs: seq<Frame<Img>>)
  {
    forall p, q :: 0 <= p < q < |fs| ==> fs[p].i <= fs[q].i
  }

  /** What the rendering goroutines send, in index order: for each step k
      below `steps == |images|`, the frame with index k and the image
      rendered at angle k * 2pi / steps. */
  function Generated<Img>(images: seq<Img>): seq<Frame<Img>>
  {
    seq(|images|, k requires 0 <= k < |images| => Frame(k, images[k]))
  }

  /** `arrivals` is one order in which the channel can deliver the frames
      rendered as `images`: each of them exactly once, in any order. */
  ghost predicate IsArrivalOrder<Img>(arrivals: seq<Frame<Img>>, images: seq<Img>)
  {
    multiset(arrivals) == multiset(Generated(images))
  }

  /** In any sorted arrangement of what the goroutines send, the frame of
      the last step comes last. */
  lemma SortedEndsWithLastStep<Img>(order: seq<Frame<Img>>, images: seq<Img>)
    requires IsArrivalOrder(order, images) && SortedByIndex(order) && |images| > 0
    ensures |order| == |images|
    ensures order[|order| - 1] == Frame(|images| - 1, images[|images| - 1])
  {
    var g := Generated(images);
    var n := |images|;
    assert |order| == |multiset(order)| == |multiset(g)| == n;
    assert g[n - 1] in multiset(order);
    var j :| 0 <= j < n && order[j] == g[n - 1];
    assert order[n - 1] in multiset(g);
    var m :| 0 <= m < n && g[m] == order[n - 1];
  }

  /** Two rearrangements of each other that end with the same frame are
      still rearrangements of each other without it. */
  lemma DropLastKeepsMultiset<Img>(a: seq<Frame<Img>>, b: seq<Frame<Img>>)
    requires multiset(a) == multiset(b) && a != [] && b != []
    requires a[|a| - 1] == b[|b| - 1]
    ensures multiset(a[..|a| - 1]) == multiset(b[..|b| - 1])
  {
    var x := a[|a| - 1];
    assert a == a[..|a| - 1] + [x];
    assert b == b[..|b| - 1] + [x];
    assert multiset(a[..|a| - 1]) == multiset(a) - multiset{x};
    assert multiset(b[..|b| - 1]) == multiset(b) - multiset{x};
  }

  /** Sorting what the goroutines send by index gives back each frame at the
      position of its own index: whatever the arrival order, a sorted
      rearrangement of it is the generation order itself. */
  lemma {:induction false} SortedArrivalsAreGenerated<Img>(order: seq<Frame<Img>>, images: seq<Img>)
    requires IsArrivalOrder(order, images) && SortedByIndex(order)
    ensures order == Generated(images)
    decreases |images|
  {
    var g := Generated(images);
    var n := |images|;
    if n == 0 {
      assert |order| == |multiset(order)| == |multiset(g)| == 0;
    } else {
      SortedEndsWithLastStep(order, images);
      DropLastKeepsMultiset(order, g);
      assert Generated(images[..n - 1]) == g[..n - 1];
      SortedArrivalsAreGenerated(order[..n - 1], images[..n - 1]);
      assert order == order[..n - 1] + [g[n - 1]];
    }
  }

  /** The first loop of `main`: pushes every frame onto the heap in the
      order it arrives from the channel. */
  method Enqueue<Img>(h: FrameHeap<Img>, arrivals: seq<Frame<Img>>)
    requires ContainerHeap.IsHeap(h.data)
    modifies h
    ensures ContainerHeap.IsHeap(h.data)
    ensures multiset(h.data) == multiset(old(h.data)) + multiset(arrivals)
  {
    for n := 0 to |arrivals|
      invariant ContainerHeap.IsHeap(h.data)
      invariant multiset(h.data) == multiset(old(h.data)) + multiset(arrivals[..n])
    {
      assert arrivals[..n + 1] == arrivals[..n] + [arrivals[n]];
      ContainerHeap.Push(h, arrivals[n]);
    }
    assert arrivals[..|arrivals|] == arrivals;
  }

  /** One pass of the drain loop: the popped frame `f`, the least of what
      remained, is appended to the popped frames (with its image and one
      delay), which keeps them sorted, their images and delays in step, and
      the frames popped and remaining together the same. */
  lemma DrainStep<Img>(order: seq<Frame<Img>>, frames: seq<Img>, delays: seq<int>, delay: int,
                       rest: seq<Frame<Img>>, rest': seq<Frame<Img>>, f: Frame<Img>)
    requires SortedByIndex(order)
    requires order != [] ==> forall k :: 0 <= k < |rest| ==> order[|order| - 1].i <= rest[k].i
    requires |frames| == |delays| == |order|
    requires forall k :: 0 <= k < |order| ==> frames[k] == order[k].image
    requires forall k :: 0 <= k < |delays| ==> delays[k] == delay
    requires rest != [] && f == rest[0]
    requires multiset(rest') == multiset(rest) - multiset{f}
    requires forall k :: 0 <= k < |rest'| ==> f.i <= rest'[k].i
    ensures SortedByIndex(order + [f])
    ensures forall k :: 0 <= k < |rest'| ==> (order + [f])[|order|].i <= rest'[k].i
    ensures |frames + [f.image]| == |delays + [delay]| == |order + [f]|
    ensures forall k :: 0 <= k < |order + [f]| ==> (frames + [f.image])[k] == (order + [f])[k].image
    ensures forall k :: 0 <= k < |delays + [delay]| ==> (delays + [delay])[k] == delay
    ensures multiset(order + [f]) + multiset(rest') == multiset(order) + multiset(rest)
  {
  }

  /** The second loop of `main`: pops until the heap is empty, appending
      each popped frame's image to `frames` and `delay` to `delays`. `order`
      is the sequence of popped frames, which the Go code does not keep:
      every frame held, each once, in index order. */
  method Drain<Img>(h: FrameHeap<Img>, delay: int)
    returns (frames: seq<Img>, delays: seq<int>, ghost order: seq<Frame<Img>>)
    requires ContainerHeap.IsHeap(h.data)
    modifies h
    ensures h.data == []
    ensures multiset(order) == multiset(old(h.data))
    ensures SortedByIndex(order)
    ensures |frames| == |delays| == |order|
    ensures forall k :: 0 <= k < |order| ==> frames[k] == order[k].image
    ensures forall k :: 0 <= k < |delays| ==> delays[k] == delay
  {
    frames, delays, order := [], [], [];
    while h.Len() > 0
      invariant ContainerHeap.IsHeap(h.data)
      invariant multiset(order) + multiset(h.data) == multiset(old(h.data))
      invariant SortedByIndex(order)
      invariant order != [] ==> forall k :: 0 <= k < |h.data| ==> order[|order| - 1].i <= h.data[k].i
      invariant |frames| == |delays| == |order|
      invariant forall k :: 0 <= k < |order| ==> frames[k] == order[k].image
      invariant forall k :: 0 <= k < |delays| ==> delays[k] == delay
      decreases |h.data|
    {
      ghost var rest := h.data;
      var f := ContainerHeap.Pop(h);
      DrainStep(order, frames, delays, delay, rest, h.data, f);
      frames := frames + [f.image];
      delays := delays + [delay];
      order := order + [f];
    }
  }

  /** The reordering stage of `main`: a new, empty frame heap, the frames
      pushed in arrival order, then drained. Whatever the arrival order, the
      popped frames are the arrivals sorted by index, and when the arrivals
      are the frames rendered as `images`, the animation's frames are
      exactly `images`, one delay each. */
  method Reorder<Img>(arrivals: seq<Frame<Img>>, delay: int)
    returns (frames: seq<Img>, delays: seq<int>, ghost order: seq<Frame<Img>>)
    ensures multiset(order) == multiset(arrivals)
    ensures SortedByIndex(order)
    ensures |frames| == |delays| == |order| == |arrivals|
    ensures forall k :: 0 <= k < |order| ==> frames[k] == order[k].image
    ensures forall k :: 0 <= k < |delays| ==> delays[k] == delay
    ensures forall images :: IsArrivalOrder(arrivals, images) ==> frames == images
  {
    var h := new FrameHeap<Img>();
    ContainerHeap.Init(h);
    Enqueue(h, arrivals);
    frames, delays, order := Drain(h, delay);
    assert |order| == |multiset(order)| == |multiset(arrivals)| == |arrivals|;
    forall images | IsArrivalOrder(arrivals, images)
      ensures frames == images
    {
      SortedArrivalsAreGenerated(order, images);
    }
  }
}
