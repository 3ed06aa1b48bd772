/** The `frame` record and the `frameHeap` slice type of main.go, with the
    five Go methods (`Len` and `Less` as functions, `Swap`, `Push` and `Pop`
    as methods) through which Go's container/heap package sees the slice. */
module Frames {

  /** One rendered animation frame: the angle-step index `i` it was rendered
      for and its palette-indexed image, which the model leaves abstract. */
  datatype Frame<Img> = Frame(i: int, image: Img)

  /** A `frameHeap` is a slice of frames. The slice is the field `data`; the
      methods with a pointer receiver reassign it, as Go reassigns `*h`. */
  class FrameHeap<Img> {
    var data: seq<Frame<Img>>

    /** `&frameHeap{}`: a heap over an empty slice. */
    constructor ()
      ensures data == []
    {
      data := [];
    }

    /** The number of frames held, counting repeated frames each time. */
    function Len(): (n: int)
      reads this
      ensures n == |multiset(data)|
    {
      |data|
    }

    /** Orders slots by the index of the frame they hold; the image takes no
        part in the comparison. */
    function Less(i: int, j: int): (less: bool)
      reads this
      requires 0 <= i < |data| && 0 <= j < |data|
      ensures less <==> data[i].i < data[j].i
    {
      data[i].i < data[j].i
    }

    /** Exchanges two slots; every other slot and the length stay as they
        were, so the frames held are the same. */
    method Swap(i: int, j: int)
      requires 0 <= i < |data| && 0 <= j < |data|
      modifies this
      ensures data == old(data)[i := old(data)[j]][j := old(data)[i]]
      ensures multiset(data) == multiset(old(data))
    {
      data := data[i := data[j]][j := data[i]];
    }

    /** Appends a frame in a new last slot, leaving the earlier slots alone. */
    method Push(x: Frame<Img>)
      modifies this
      ensures data == old(data) + [x]
      ensures Len() == old(Len()) + 1
    {
      data := data + [x];
    }

    /** Removes the frame in the last slot and returns it; the slice must not
        be empty (Go indexes `old[n-1]` and panics otherwise). */
    method Pop() returns (x: Frame<Img>)
      requires |data| > 0
      modifies this
      ensures old(data) == data + [x]
      ensures Len() == old(Len()) - 1
    {
      var n := |data|;
      x := data[n - 1];
      data := data[..n - 1];
    }
  }

  /** `Less` looks at the frame indices only: two heaps whose slots `i` and
      `j` hold the same indices agree on `Less(i, j)`, whatever images those
      slots hold. */
  lemma LessIgnoresImages<Img>(a: FrameHeap<Img>, b: FrameHeap<Img>, i: int, j: int)
    requires 0 <= i < |a.data| && 0 <= j < |a.data| && |b.data| == |a.data|
    requires a.data[i].i == b.data[i].i && a.data[j].i == b.data[j].i
    ensures a.Less(i, j) == b.Less(i, j)
  {
  }

  /** `Less` is a strict weak order on slots, as container/heap requires of
      it: no slot is Less than itself, two slots are never Less than each
      other, Less-chains compose, and so do chains of slots not Less than
      the next. */
  lemma LessIsStrictOrder<Img>(h: FrameHeap<Img>, i: int, j: int, k: int)
    requires 0 <= i < |h.data| && 0 <= j < |h.data| && 0 <= k < |h.data|
    ensures !h.Less(i, i)
    ensures h.Less(i, j) ==> !h.Less(j, i)
    ensures h.Less(i, j) && h.Less(j, k) ==> h.Less(i, k)
    ensures !h.Less(i, j) && !h.Less(j, k) ==> !h.Less(i, k)
  {
  }
}
