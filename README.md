# Path tracer: BVH construction and the progressive viewer

This project models two parts of a small C++ path tracer and proves properties of the model.

**The bounding-volume hierarchy** (`src/acceleration_structures/bvh.cpp`) is in `bvh.dfy`:
- The range constructor picks a split axis from three estimates. Each estimate sorts the range of the primitive list on its own axis.
- The range is then sorted on the chosen axis and split at its count midpoint, and both halves are built recursively. Every node caches the union of its children's boxes.
- Traversal prunes by node boxes.
- `dump_bvh` prints the tree as nested `node { ... }` blocks.

The primitive list is an `array` that construction reorders in place. The tree is a value, because its nodes are written only while they are being built.

**The interactive viewer** (`src/sfml_interface/interface.cpp`) is in `interface.dfy`:
- The image rows are split among the render threads.
- The render loop is modelled one iteration at a time. An iteration that starts while the camera moves resets the pass counter, sets the sampling setting to one sample per pixel and renders a pass (`render_depth_buffer`). Otherwise it sets the setting to the per-render count, renders a pass and post-processes it (`render_frame_portion`).
- The accumulator copies the first pass after a reset and blends each later pass into the running image with the weight `1 / n`.
- The movement handler switches the accumulator to the depth view while moving and restores the previous mode afterwards.
- A pass made while moving leaves the counter at 1 and the final image in the depth view. So the first full pass after the camera stops is blended half and half with that preview, whose weight then falls as `1 / n`. `RunIteration`'s contract states both steps.

The two frames are classes over arrays, and the viewer is a class whose methods update its fields.

`geometry.dfy` holds the shared vectors and axis-aligned boxes.

Main results:
- `Build` succeeds exactly when every primitive of the range has a box. It leaves the list reordered only inside the range.
- A successful build returns a valid, balanced tree. Its leaves are exactly the range's primitives, and the two halves of every node are separated on the node's axis.
- Every primitive lies inside the box of the tree built over it.
- Traversal with box pruning returns the same hit flag and the same final hit record as testing every primitive in leaf order.
- The dump holds one `{` and one `}` per node.
- The row tasks are disjoint and cover exactly the rows of the frame. Their worker ids are distinct exactly when there are at most eleven threads.
- With identity post-processing, the accumulated image is the pixel-wise mean of the passes since the last reset.
- A stretch of motion restores the post-processing mode it interrupted.

Functions the code calls but which are not part of this model are parameters of the model:
- `effective_size`;
- the ray/box slab test;
- a primitive's `hit`;
- what a leaf prints;
- the frame post-processing filter.

## Model

| member | source | states |
|---|---|---|
| Geometry.Surround | src/acceleration_structures/bvh.cpp:91-92 | the union box contains both boxes and lies inside every box that contains both |
| Bvh.BoxLessStrictWeakOrder | src/acceleration_structures/bvh.cpp:6-27 | on boxed primitives the comparator `BoxLess` used for each of the three axes is irreflexive, asymmetric and transitive, and incomparability (equal minima) is transitive; a true comparison implies both boxes exist |
| Bvh.BoxLessNotStrictWeakOrderWhenMissing | src/acceleration_structures/bvh.cpp:10-11 | a box-less primitive is incomparable with two primitives that are ordered, so with a box missing the comparator is not a strict weak order |
| Bvh.ChooseAxis | src/acceleration_structures/bvh.cpp:46-52 | the chosen axis has the least estimate, and every lower-numbered axis has a strictly larger one |
| Bvh.OrderPair | src/acceleration_structures/bvh.cpp:68-75 | the two objects of a pair are the inputs, not strictly out of order; the second input comes first unless the first is strictly smaller |
| Bvh.RangeBox | src/acceleration_structures/bvh.cpp:113-114 | the box of a range exists exactly when the range is non-empty and fully boxed; it is the least box around the range: it contains every box of the range and lies inside every box that contains them all |
| Bvh.InsertionSortSorted | src/acceleration_structures/bvh.cpp:77 | the stand-in for `std::sort` sorts every fully boxed range on the comparator |
| Bvh.SortRange | src/acceleration_structures/bvh.cpp:110 | sorting permutes the range, leaves the rest of the list alone, and on a fully boxed range yields comparator order |
| Bvh.Estimate | src/acceleration_structures/bvh.cpp:101-117 | a range of at most one object is untouched and estimates 0; otherwise the range is permuted in place, sorted when fully boxed, and the estimate is `SplitEstimate` of the new order: the sum of the effective sizes of the boxes of its two count halves |
| Bvh.PairEstimate | src/acceleration_structures/bvh.cpp:111-115 | `SplitEstimate` of a two-object range is the sum of the effective sizes of the two objects' own boxes (the zero box for a missing one) |
| Bvh.PairEstimateSame | src/acceleration_structures/bvh.cpp:110-115 | `SplitEstimate` of a pair does not depend on the order the sort left it in |
| Bvh.SelectAxis | src/acceleration_structures/bvh.cpp:41-52 | the x, y and z estimates run in that order, each only permuting the range the previous one left (a range of at most one object is untouched) and sorting it on its axis when fully boxed; the axis is `ChooseAxis` of the three `SplitEstimate`s of those stages, and the range is left in the order of the z stage |
| Bvh.PairSplitsOnX | src/acceleration_structures/bvh.cpp:42-52 | for a two-object range the three estimates are equal, so the axis chosen is always x |
| Bvh.NodeBox | src/acceleration_structures/bvh.cpp:84-97 | a node's box exists exactly when its children's boxes do; it is the sole child's box, or the least box around both children: it contains each child's box and lies inside every box that contains both |
| Bvh.SingleNode | src/acceleration_structures/bvh.cpp:65-67 | the node over one object succeeds exactly when the object has a box; its only child is that object's leaf and its box is the object's box |
| Bvh.PairNode | src/acceleration_structures/bvh.cpp:68-75 | the node over two objects succeeds exactly when both have boxes, holding the two leaves in comparator order, separated on the axis and built from the pair |
| Bvh.Build | src/acceleration_structures/bvh.cpp:40-99 | the axis is chosen from the three staged estimates as in `SelectAxis`, and is x for a pair; an empty range errs (the source exits); otherwise construction succeeds exactly when every object of the range has a box, errs with a missing box otherwise, and builds a valid balanced tree whose leaves are the range's objects; the list changes only by a permutation inside the range; a single object gives a node with its leaf and box, a pair gives its two leaves in comparator order on the chosen axis, and a larger range is split on that axis |
| Bvh.BuildNonEmpty | src/acceleration_structures/bvh.cpp:58-97 | the three cases for a non-empty range on a given axis: the outcome, the permutation inside the range and the shape of each case |
| Bvh.BuildSplit | src/acceleration_structures/bvh.cpp:76-82 | more than two objects: sort on the axis, then split into the first half and the rest, with the children separated on the axis |
| Bvh.BuildHalves | src/acceleration_structures/bvh.cpp:79-82 | the left half `[from, from + cnt / 2)` is built before the right one; the outcome is that of the whole range |
| Bvh.BuildRight | src/acceleration_structures/bvh.cpp:81-97 | building the right half touches only the right half; the node over both halves caches the union of their boxes |
| Bvh.SplitNodeBuilt | src/acceleration_structures/bvh.cpp:79-92 | the node over the two built halves of a sorted range is built from the whole range and its halves are separated |
| Bvh.SeparatedFromSorted | src/acceleration_structures/bvh.cpp:77-81 | splitting a sorted range leaves no right-half object strictly below a left-half object |
| Bvh.BuildAll | src/acceleration_structures/bvh.cpp:36-38 | the tree over the whole list: an empty list errs; success exactly when every object has a box; the leaves are the list's objects and the list is only permuted |
| Bvh.Containment | src/acceleration_structures/bvh.cpp:130-133 | the box `BoundingBox` reports for a valid tree contains the box of every primitive under it |
| Bvh.BuiltTreeContainsRange | src/acceleration_structures/bvh.cpp:84-97 | every primitive of a range lies inside the box of the tree built from it |
| Bvh.HitMatchesExhaustive | src/acceleration_structures/bvh.cpp:119-128 | on a valid tree, with a slab test that never misses a box around a primitive the ray hits, pruned traversal `Hit` returns the same flag and final hit record as testing every leaf in order, each leaf seeing the record the previous ones left |
| Bvh.Indent | src/acceleration_structures/bvh.cpp:136-139 | the indentation at depth `d` is `2 * d` spaces, and empty when `d` is below one |
| Bvh.NodeBraceCount | src/acceleration_structures/bvh.cpp:140-153 | a node's output holds one `{` and one `}` more than its children's outputs |
| Bvh.DumpBalanced | src/acceleration_structures/bvh.cpp:135-154 | when leaves print no braces, the `Dump` output at any depth holds exactly one `{` and one `}` per node |
| Interface.PartitionRows | src/sfml_interface/interface.cpp:51-66 | the task loop builds the partition: task `i < T - 1` takes rows `[i * L, i * L + L)` with id `i`, the last task takes the rest with id 10 |
| Interface.PartitionShape | src/sfml_interface/interface.cpp:51-66 | one task per thread, each spanning the full width; the last one holds `L + sizeY % T` rows |
| Interface.PartitionDisjoint | src/sfml_interface/interface.cpp:54-65 | no row belongs to two tasks |
| Interface.RowHasTask | src/sfml_interface/interface.cpp:54-65 | every row of the frame belongs to some task |
| Interface.TaskRowsInFrame | src/sfml_interface/interface.cpp:54-65 | every row of a task lies in the frame |
| Interface.PartitionCovers | src/sfml_interface/interface.cpp:51-66 | a row belongs to some task of `Partition` exactly when it lies in the frame |
| Interface.WorkerIdsDistinct | src/sfml_interface/interface.cpp:54-66 | the worker ids are pairwise distinct exactly when there are at most eleven threads |
| Interface.BlendInto | src/sfml_interface/interface.cpp:102-106 | each pixel becomes the previous final image weighted `(n - 1) / n` plus the new final image weighted `1 / n` |
| Interface.MixConstant | src/sfml_interface/interface.cpp:104-106 | `Mix` of a color with itself gives that color |
| Interface.BlendConstant | src/sfml_interface/interface.cpp:102-106 | `Blend` of an image with itself gives that image |
| Interface.RunningIsMean | src/sfml_interface/interface.cpp:100-106 | copying the first pass and then `Mix`ing pass `k` in with `n = k` yields the arithmetic mean of the passes |
| Interface.AccumulatedIsMean | src/sfml_interface/interface.cpp:96-113 | with identity post-processing, every pixel accumulated since a reset is the mean of that pixel over the passes |
| Interface.Frame.constructor | src/sfml_interface/interface.cpp:43-44 | a frame of the given pixel count with fresh buffers and the given mode |
| Interface.Frame.Store | src/sfml_interface/interface.cpp:82-84 | a render pass leaves its color, normal and depth buffers in the frame |
| Interface.Frame.SetPostProcessing | src/sfml_interface/interface.cpp:109 | the frame's mode becomes the given mode |
| Interface.Frame.PostProcess | src/sfml_interface/interface.cpp:110 | the final image is the filter's image of the buffers in the current mode |
| Interface.MotionStep | src/sfml_interface/interface.cpp:248-261 | afterwards the state is moving exactly when the camera moved; starting to move saves the frame's mode and selects depth; stopping restores the saved mode; otherwise the modes stay |
| Interface.MotionRestores | src/sfml_interface/interface.cpp:184-261 | starting to move, moving for any number of steps and stopping leaves the accumulator in the mode the frame showed at the start, and in depth throughout the motion |
| Interface.MotionRestartBeforePass | src/sfml_interface/interface.cpp:251-257 | a stop followed by a restart before any pass saves depth, so the accumulator stays in depth after the next stop |
| Interface.Viewer.constructor | src/sfml_interface/interface.cpp:4-66 | two new frames of `sizeX * sizeY` pixels with new buffers, owned by the viewer, the counter at zero and the row partition for the thread count; the flags and the saved mode are assumptions (see below) |
| Interface.Viewer.Accumulate | src/sfml_interface/interface.cpp:96-114 | normals and depths come from the new frame; the color is copied from the new frame after a reset and blended with `n = count + 1` otherwise; the frame is post-processed in the accumulator's mode and the counter goes up by one |
| Interface.Viewer.RenderDepthBuffer | src/sfml_interface/interface.cpp:81-85 | the sampling setting becomes one sample per pixel, and the pass lands in the new frame; the viewer stays valid |
| Interface.Viewer.RenderFramePortion | src/sfml_interface/interface.cpp:87-94 | the sampling setting becomes `pixel_sampling_per_render`; the pass lands in the new frame and is post-processed in the rendered frame's mode; the viewer stays valid |
| Interface.Viewer.RunIteration | src/sfml_interface/interface.cpp:133-145 | an iteration that starts while moving resets the counter, sets the sampling setting to 1 and renders a pass, so the accumulated color is that pass and the counter is 1; otherwise the setting is the per-render count and the post-processed pass is blended in with `n = count + 1`; the new frame holds the pass, with its final image and mode untouched while moving and its mode the rendered frame's mode otherwise; the render-done flag is set; the viewer stays valid |
| Interface.FirstTwoPasses | src/sfml_interface/interface.cpp:4-66 | a newly built viewer can run `run`'s iterations: two still iterations with identity post-processing leave the counter at 2 and the mean of the two passes as the color |
| Interface.Viewer.HandleMovement | src/sfml_interface/interface.cpp:183-263 | the camera moved exactly when one of the twelve movement keys is pressed, and the motion state takes `MotionStep` |

## Left out

- Floating point: coordinates, colors and estimates are `real`, so rounding in the blend weights, the box union and the `double` midpoint of lines 79 and 111 is not modelled.
- The `size_t` arithmetic of the midpoint and the `int` task bounds of lines 51-66: integers are unbounded, so overflow for huge images is not modelled.
- Thread count: `threads >= 1` is required. With zero threads the source divides by zero at line 51 and its `size_t` loop bound underflows.
- `std::sort` is modelled by an insertion sort. Its contract promises only a permutation of the range that leaves the rest of the list alone, and comparator order when the range is fully boxed. The order the library picks among equal elements is not modelled. Neither is its undefined behaviour when a box is missing and the comparator is not a strict weak order.
- `exit(0)` on an empty range or a missing box (lines 60-63 and 86-89) is modelled as an `Err` result. The log message is left out.
- The `box = box_right` branch of line 96 is unreachable, because `left` is always set. The model has no node without a left child.
- `HittableList::bounding_box` is not part of this model. `RangeBox` is the union of the range's boxes.
- `Geometry.ZeroBox`: when the range box fails inside the estimate, the source ignores the failure and reads whatever `HittableList::bounding_box` leaves in its output. That function is not part of this model. The model reads a box with all-zero corners. The value cannot make such a build succeed: a failed range box means a half of the range has an object without a box, and by `Build`'s contract such a range always ends in the missing-box error.
- `effective_size`, `AABB::hit` (the slab test), a primitive's own `hit` and `bounding_box`, and a leaf's `dump_bvh` are parameters or fields of the model.
- `get_bvh_tree` is fixed as the leaf `Leaf(p)`, which reports the primitive's own box. The model therefore assumes that the converted object has the primitive's box. A wrapper such as `inst_RotY::get_bvh_tree` (`src/collections/instances/rot_y.h:19`) builds a new wrapper around the converted object instead, and the model does not capture that.
- `HitMatchesExhaustive` assumes the slab test is conservative: it never misses a box that contains a primitive the ray hits. That property of `AABB::hit` is not proved here.
- `Frame::postproc`, its radii, `Frame::clear`, `color_to_rgb_buffer` with gamma correction, and the `cur_image` RGBA buffer are left out. The filter is a function parameter that yields one pixel per color. The render pass is a parameter, because the threaded renderer is not part of this model.
- Sampling setting: lines 83 and 89 write only the interface's own `PIXEL_SAMPLING` setting. The row tasks receive the configuration once, at construction (lines 59 and 66), and `ThreadRenderTask` is not part of this model. So whether a pass uses the setting is not modelled. The pass is a parameter either way.
- Threads: the render thread pool, the `run` loop's concurrency with `interaction_loop`, and the `render_done` handshake are left out. The model runs one iteration or one movement poll at a time. `MotionRestartBeforePass` shows what an interleaving without a pass in between does.
- SFML is left out: the window, textures, sprites, events, screenshots and keyboard polling. The pressed keys are a parameter. The camera updates of lines 189-249 are not modelled.
- Timing statistics (`render_frame_threaded`, lines 69-79), logging, and the `calloc` failure paths of the constructor are left out.
- `Bvh.Build`: the split axis and the three estimate stages are ghost out-parameters. The tree does not store the axis, and the source keeps it only as a local.
- `Bvh.Hit`: the ray is a value, and both children are handed the same ray. The source passes `Ray &` non-const, so a primitive's `hit` could change the ray the right child then sees (`src/collections/instances/rot_y.h:15` takes it the same way). The model does not capture such a change.
- `Interface.Viewer.constructor`: `is_moving` and `render_done` are not in the source's initialiser list, and they start with whatever the header gives them; the header is not part of this model. The model assumes both start false. The movement handler's static saved mode is zero-initialised (line 184), but the enumeration of modes is not part of this model, so its first value is the `preservedMode` parameter. That static is local to the function, so all interfaces share one saved mode. In the model each viewer has its own `preservedPostproc`.
