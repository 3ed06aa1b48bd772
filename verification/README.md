# gifspin: the frame reordering stage

gifspin turns a still image into a spinning animated GIF. It renders the image at
`steps` evenly spaced angles, one goroutine per angle. Each goroutine sends a
`frame{i, image}` on a channel when it finishes, so frames arrive in any order.
`main` pushes every arriving frame onto a `frameHeap`, a slice ordered by frame
index through Go's `container/heap`. It then pops the heap empty, appending each
frame's image to `frames` and the `-delay` flag value to `delays`.

This project models that reordering stage in Dafny:

- `frames.dfy`, module `Frames`: the `frame` record, as the datatype `Frame<Img>`
  with the image left abstract. It also holds the `frameHeap` slice, as the class
  `FrameHeap<Img>` with a `seq` field, the functions `Len` and `Less` and the
  methods `Swap`, `Push` and `Pop`.
- `container_heap.dfy`, module `ContainerHeap`: `heap.Init`, `heap.Push` and
  `heap.Pop`, built from the sift-up (`up`) and sift-down (`down`) loops. Like the
  Go package, they reach the slice only through the two functions and three methods above. They
  keep the heap invariant: no child slot is `Less` than its parent.
- `spin.dfy`, module `Spin`: the two loops of `main` (`Enqueue`, `Drain`) and the
  whole stage (`Reorder`). It also states the guarantee of `generateFrames` that
  the stage relies on. For each step `k` below `steps`, the frame with index `k`
  is sent exactly once: `IsArrivalOrder(arrivals, images)` says that
  `arrivals` is a rearrangement of `Generated(images)`, which is
  `[Frame(0, images[0]), ..., Frame(steps - 1, images[steps - 1])]`.

The main result is `Spin.Reorder`. For any arrival order, the popped frames are
the arrivals sorted by index, with nothing lost or duplicated. `frames` and
`delays` have one entry per arrival, and every delay is the flag value. When the
arrivals are what `generateFrames` sends for `images`, `frames` is exactly
`images`: position `k` holds the image rendered for step `k`.

`container/heap` is Go's standard library, outside gifspin. Its `Init`, `Push`,
`Pop`, `up` and `down` are modelled after its documented contract and its
sift-up/sift-down implementation.

## Model

| member | source | states |
|---|---|---|
| `Frames.FrameHeap.constructor` | main.go:136 | `&frameHeap{}` is a heap over an empty slice |
| `Frames.FrameHeap.Len` | main.go:73 | the number of frames held, each copy counted (the size of the multiset of the slice) |
| `Frames.LessIgnoresImages` | main.go:74 | `Less(i, j)` depends only on the indices of the frames in slots i and j: two heaps whose slots hold the same indices agree on it, whatever their images |
| `Frames.LessIsStrictOrder` | main.go:74 | `Less` is a strict weak order on slots, as container/heap needs: irreflexive, asymmetric and transitive, and if neither `Less(i, j)` nor `Less(j, k)` then not `Less(i, k)` |
| `ContainerHeap.HeapInvariantIsIndexOrder` | main.go:74 | container/heap's documented invariant, no slot `Less` than its parent, holds exactly when every parent's frame index is at most its child's (the form the heap proofs use) |
| `Frames.FrameHeap.Swap` | main.go:75 | the two slots are exchanged; every other slot and the length are unchanged, so the multiset of frames is unchanged |
| `Frames.FrameHeap.Push` | main.go:77-79 | the frame is appended in a new last slot, the earlier slots are unchanged, and Len grows by one |
| `Frames.FrameHeap.Pop` | main.go:81-87 | on a non-empty slice, returns the last slot's frame; the old slice is the new one plus that frame, and Len shrinks by one |
| `ContainerHeap.Up` | main.go:139 | sifting up the one slot whose parent link may be broken restores the heap invariant and keeps the multiset of frames |
| `ContainerHeap.Down` | main.go:145 | sifting a slot down within a prefix makes every link from that slot on hold; slots before that slot, slots past the prefix and the multiset are unchanged, and nothing moves when the slot is at or past the end of the prefix |
| `ContainerHeap.Init` | main.go:137 | any slice becomes a heap with the same multiset of frames (in `main` the slice is empty) |
| `ContainerHeap.Push` | main.go:139 | pushing onto a heap gives a heap whose multiset gains exactly that frame |
| `ContainerHeap.Pop` | main.go:145 | popping a non-empty heap returns the root frame, whose index is no larger than any frame's before or after; the result is a heap whose multiset loses exactly that frame and whose length drops by one |
| `ContainerHeap.HeapRootIsMinimal` | main.go:144-145 | the root of a heap has the least index of all its frames, which is why each pop yields the next frame in order |
| `Spin.SortedArrivalsAreGenerated` | main.go:106-114 | any index-sorted rearrangement of the frames the goroutines send, one per step `k` in `[0, steps)`, is frame 0, frame 1, ..., frame steps-1 in that order |
| `Spin.Enqueue` | main.go:138-141 | pushing every arrival keeps the heap invariant; the heap's multiset gains exactly the arrivals |
| `Spin.Drain` | main.go:142-149 | popping until Len is 0 leaves an empty slice; the popped frames are every frame held, each once, in non-decreasing index order; `frames` holds their images in that order; `delays` has the same length with every entry equal to `delay` |
| `Spin.Reorder` | main.go:136-149 | for any arrival order: the popped frames are a rearrangement of the arrivals, sorted by index; `len(frames) == len(delays) ==` the number of arrivals, so no arrivals give empty `frames` and `delays`; every delay is `delay`; and when the arrivals are what the goroutines send for `images`, `frames == images` |

## Left out

- `matMul` and `rotate` (main.go:21-45) are left out. They are `float64` affine arithmetic, `math.Sincos`, and the foreign resampler `draw.BiLinear.Transform`.
- `rotatePaletted` (main.go:89-96) is left out. Its compositing and Floyd–Steinberg dithering live in `golang.org/x/image/draw`, which is not part of this model. Each rendered image is an opaque value of the type parameter `Img`.
- `generateFrames` (main.go:98-123) is left out: its goroutines, channel and `sync.WaitGroup`, and the float computation of `stepAngle`. Only its guarantee is kept, as `Spin.Generated` and `Spin.IsArrivalOrder`. The channel's delivery order is an arbitrary rearrangement, taken as the input `arrivals` of `Spin.Reorder`.
- A negative `steps` is left out. In Go, `wg.Add(steps)` panics on it. The model's step count is `|images|`, a natural number. With `steps == 0` no frame is sent, and the stage yields empty `frames` and `delays`.
- `openImage`, `createGIF`, flag parsing and logging (main.go:47-64, 126-134, 140, 146, 151-154) are left out. They are file I/O, image decoding and encoding, and process plumbing, and have no effect on the order of the frames.
- `ContainerHeap.Down` does not return the boolean that Go's `down` returns. `Init` and `Pop` ignore it.
- `ContainerHeap.Down` also leaves out Go's `j1 < 0` guard, which only catches `int` overflow. Dafny's integers are unbounded, and slot numbers stay below the slice length. The same goes for frame indices, which stay below `steps`.
- The `interface{}` boxing of `Push`/`Pop` and the type assertion `.(frame)` are left out. The model types them with `Frame` directly. In `main`, only frames are ever pushed, so the assertion cannot fail there.
- The heap operations are module-level methods that take a `FrameHeap` directly, not a `heap.Interface`: `frameHeap` is the only heap `main` uses.
