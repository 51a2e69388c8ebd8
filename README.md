# Ray-tracer server core, modelled in Dafny

The model covers the deterministic core of a small ray-tracing server.
Viewers connect over websockets. A controller thread renders the frames
of the current job, and every completed frame goes out to each viewer as
a notice followed by a PNG. Once every frame is in, the controller builds
an animated GIF and sends it too.

The model has five modules:

- **Shared** (`shared.dfy`). Rust's `u32`/`u16`/`u8` are subset types.
  - `ceil_div` is written with the `u32` wrap-around of a release build;
    a debug build panics on that overflow instead.
  - Also here: row-major pixel indexing, the 24-bit `0x00RRGGBB` colour
    packing and its inverse, and the flattening of a packed display
    buffer into bytes.
- **Render** (`render.dfy`).
  - `ImageBlocker` is a class with its `block_index` counter. It yields
    the 32×32 tiles of an image in row-major order, clipped at the right
    and bottom edges.
  - The spiral pass keeps the in-grid points of an arbitrary point
    sequence and looks each one up in the row-major block list. The
    Chebyshev spiral iterator is a function parameter.
- **Server** (`server.dfy`).
  - `update_client` is a method whose loop is proved against a pure pass
    function, `ClientPass`. The pass is specified by the delivery protocol
    `Protocol`: the config message, then a notice and the PNG of every
    completed frame in completion order, then the GIF notice and the GIF.
  - A viewer's state is a position in that protocol. A pass delivers
    exactly the protocol messages between the old and new positions.
  - The shared server data is a class holding the client map and the
    render status. Its methods cover registration, `reset_job`'s reset,
    the job-drain loop, frame appends, `update_clients`, and `render_gif`
    with its stable sort by frame index.
- **FrameAssembly** (`assembly.dfy`). A full frame is assembled from
  per-block images, `copy_from` after `copy_from`, into a 2-D array. The
  model proves three things:
  - when the results are the image's blocks in any order, every pixel
    comes from exactly its own block;
  - the order of the results does not change the frame;
  - every pixel is written by the block that contains it.

  The results reach the fold through a `FuturesOrdered`
  (src/render.rs:166-183), which yields them in the spiral order in which
  they were pushed, whatever order they finish in. The lemmas cover every
  order, the spiral order among them.
- **Scene** (`scene.dfy`).
  - `build_bvh` appends bounds.
  - `intersect` is a closest-hit fold that shrinks `t_max`. Its
    traversal (the positions of the bounds the BVH yields) and the
    per-object ray test are parameters. Floats are `real`.

Some inputs are parameters of the model:

- send outcomes are a mailbox value `Mailbox(closed, room)`;
- the point order of the spiral iterator;
- the BVH traversal;
- the per-object ray test and bounds computation;
- the GIF encoder.

An `intersect` before the index is built returns no hit
(src/scene.rs:52, 76), and so does the model.

## Model

| member | source | states |
|---|---|---|
| Shared.CeilDivIsLeastCover | src/shared.rs:135-137 | if `y > 0` and `x + y - 1` fits in `u32`, `ceil_div(x, y)` is the least `q` with `q * y >= x` |
| Shared.CeilDivWrapsNearLimit | src/shared.rs:135-137 | near the `u32` limit the sum wraps, and `ceil_div(2^32 - 1, 32)` is 0 rather than the true quotient |
| Shared.IndexFromXyInImage | src/shared.rs:13-15 | for `x < w`, `y < h`, the index is `y * w + x` and lies below `w * h` |
| Shared.IndexFromXyInjective | src/shared.rs:13-15 | distinct in-image coordinates give distinct indices |
| Shared.ColorDisplayFromRgb | src/shared.rs:56-59 | the packed colour is below 2^24 |
| Shared.RgbRoundTrip | src/shared.rs:49-59 | unpacking a packed colour gives back `[r, g, b]` |
| Shared.DecodeIgnoresHighBits | src/shared.rs:49-54 | unpacking depends only on the low 24 bits, because the `as u8` casts drop the rest |
| Shared.PackDecoded | src/shared.rs:49-59 | packing an unpacked colour gives the colour modulo 2^24 (the other round trip) |
| Shared.BufferDisplayLayout | src/shared.rs:42-47 | the flattened buffer has 3 bytes per pixel, and bytes `3k..3k+3` are the unpacking of pixel `k` |
| Shared.BufferDisplayRoundTrip | src/shared.rs:42-59 | flattening a buffer of packed pixels gives each pixel's `r, g, b` at its offset |
| Render.CellOrigin | src/render.rs:61-65 | the `k`-th block's origin `(k % countX * 32, k / countX * 32)` lies inside the image |
| Render.ClippedSide | src/render.rs:66-73 | a clipped block side is between 1 and 32 and ends within the image |
| Render.BlockGeometry | src/render.rs:61-73 | block `k` is at column `k % countX` and row `k / countX` of the grid, its sides are 1 to 32, and it lies within the image |
| Render.BlockCoversPixel | src/render.rs:54-79 | an in-image pixel lies in block `k` if and only if `k` is the pixel's row-major cell |
| Render.PixelHasBlock | src/render.rs:54-79 | every in-image pixel's cell is one of the yielded blocks |
| Render.BlocksDisjoint | src/render.rs:54-79 | two different blocks share no pixel |
| Render.EmptyImageHasNoBlocks | src/render.rs:35-59 | a zero width or height yields no blocks |
| Render.AllBlocksDistinct | src/render.rs:54-79 | no block is yielded twice |
| Render.ImageBlocker.constructor | src/render.rs:35-47 | a new blocker for the image starts at block index 0 |
| Render.ImageBlocker.Next | src/render.rs:54-79 | below the block count, yields block `block_index` and advances the index by one; at or past the count, returns `None` and leaves the index alone |
| Render.ImageBlocker.Collect | src/render.rs:148 | collecting yields exactly the remaining blocks in order, and leaves the iterator exhausted |
| Render.SpiralBlocks | src/render.rs:143-163 | the `i32` index arithmetic panics (`None`) exactly when an in-grid spiral point has a row-major index of `2^31` or more; otherwise the pushed blocks are the grid selection of the spiral points around the centre `count / 2 - 1`, with radius `max(countX, countY) / 2 + 1` |
| Render.SelectInGrid | src/render.rs:157-163 | the loop over the points panics (`None`) exactly when it meets an in-grid point whose `i32` index `by * countX + bx` reaches `2^31`; otherwise it pushes exactly the grid selection of the points |
| Render.SmallImagesDoNotOverflow | src/render.rs:146-161 | for image sides that fit in `u16`, as the server's do, the spiral's `i32` index never overflows |
| Render.SpiralSelectLength | src/render.rs:157-163 | the spiral output is no longer than the point sequence |
| Render.SpiralSelectSound | src/render.rs:157-163 | every pushed block is `blocks[by * countX + bx]` for some in-grid input point `(bx, by)`; out-of-grid points, including negative ones, are skipped |
| Render.SpiralSelectComplete | src/render.rs:157-163 | the block of every in-grid input point is pushed |
| Render.SpiralSelectDistinct | src/render.rs:157-163 | with distinct points and distinct blocks, no block is pushed twice |
| Render.SpiralMultiplicity | src/render.rs:157-163 | with distinct points that include every grid cell, each block occurs in the output exactly as often as in the block list |
| Render.SpiralIsPermutation | src/render.rs:143-163 | with distinct points covering the grid, the spiral output is a permutation of the image's blocks |
| Server.NextStep | src/server.rs:448-473 | a step that does not wait keeps the viewer's progress valid and lowers its rank (the loop's termination measure) |
| Server.ClientPass | src/server.rs:446-488 | a pass keeps the viewer's progress valid (so every `frames[i]` lookup is in range), never raises its rank, and uses one mailbox slot per delivered message |
| Server.ProtocolAt | src/server.rs:446-488 | the protocol is: the config; for each completed frame, a notice carrying the frame's own index (not its position) and its PNG; once all frames are in, the GIF notice; once built, the GIF |
| Server.StepFollowsProtocol | src/server.rs:448-486 | a viewer waits exactly when it has everything currently available; a silent move (past the last frame) keeps its position; a send is the next protocol message and advances by one |
| Server.PassFollowsProtocol | src/server.rs:446-488 | a pass delivers exactly the protocol messages between the old and new positions, with no gap, repeat or reordering, and stops only when the viewer is caught up or a send is refused |
| Server.PassRefused | src/server.rs:475-486 | with a full or closed mailbox nothing is sent and the state is unchanged, except for the silent move from `NeedsFrameMeta(total_frames)` to `NeedsGifMeta` |
| Server.PassCatchesUp | src/server.rs:446-488 | with an open mailbox that has room for everything outstanding, the pass delivers the rest of the protocol |
| Server.FinishedJobDelivery | src/server.rs:446-488 | a new viewer of a finished job with enough room receives the config, every frame's notice and PNG, the GIF notice and the GIF (`2 * total_frames + 3` messages), and ends `Complete` |
| Server.ExtendsProtocol | src/server.rs:311 | appending frames or the GIF only extends the protocol, and every viewer's progress stays valid |
| Server.SessionFollowsProtocol | src/server.rs:440-488 | over passes against a growing status, a viewer receives a prefix of the final protocol, in order and without repeats |
| Server.InsertByIndexSorted | src/server.rs:432 | inserting into a list sorted by index keeps it sorted |
| Server.SortByIndexCorrect | src/server.rs:431-432 | sorting by frame index gives a sorted permutation of the frames |
| Server.GifFrameOrder | src/server.rs:431-435 | when the stored frames carry the indices `0 .. n-1`, each once, the encoder's `k`-th image is the image of frame `k`, whatever the completion order |
| Server.Advance | src/server.rs:448-486 | one loop iteration stops exactly when the viewer must wait or the send is refused, and then the pass is over with nothing sent; otherwise the rest of the pass continues from the next state after the delivered message, with a lower rank |
| Server.UpdateClient | src/server.rs:446-488 | the loop ends in the state, and with the messages sent and the mailbox, that the pass function `ClientPass` gives |
| Server.ServerData.constructor | src/server.rs:231-239 | the server starts with no viewers and the default job (40 frames, 32 samples, 320×180, per-frame) with no frames and no GIF |
| Server.ServerData.Started | src/server.rs:169-175 | a connecting viewer (a new address) is added as `NeedsConfig`; nothing else changes |
| Server.ServerData.Stopping | src/server.rs:177-183 | a disconnecting viewer (a registered address) is removed; nothing else changes |
| Server.ServerData.ResetJob | src/server.rs:400-404 | the status becomes `{job, [], None}`, every registered viewer is `NeedsConfig`, and the set of viewers is unchanged |
| Server.ServerData.DrainJobs | src/server.rs:273-285 | draining a non-empty queue leaves the state as if only its last job had been applied; an empty queue changes nothing |
| Server.ServerData.PushFrame | src/server.rs:311 | the frame is appended in completion order, the status only grows, and the viewers are untouched |
| Server.ServerData.RenderGif | src/server.rs:427-438 | the GIF is the encoding of the frame images sorted by frame index; afterwards no GIF is pending (`needs_gif` is false) |
| Server.ServerData.ApplyPass | src/server.rs:440-444 | one viewer's entry becomes the state its pass leaves it in |
| Server.ServerData.UpdateClients | src/server.rs:440-444 | every viewer ends as its own pass leaves it, whatever the map's order, and no viewer is added or removed |
| Server.ServerData.ServeThenBuildGif | src/server.rs:323-337 | viewers are served against the status before the GIF exists, then the GIF is built if and only if `needs_gif` held; afterwards no GIF is pending |
| FrameAssembly.NewFrame | src/server.rs:420 | a new frame has the image's size and is all black |
| FrameAssembly.CopyFrom | src/server.rs:422 | the copy succeeds if and only if the block image fits at `(x, y)`; if so exactly those pixels are overwritten, and otherwise nothing changes |
| FrameAssembly.AssembleFrame | src/server.rs:419-425 | assembly succeeds if and only if every block fits, and then each pixel is the last covering block's pixel, or black |
| FrameAssembly.CompositeOfCovering | src/server.rs:419-425 | with non-overlapping blocks a pixel takes the pixel of whichever block covers it, and stays black if none does |
| FrameAssembly.BlockOrderIrrelevant | src/server.rs:419-425 | any two orders of the same non-overlapping blocks, the spiral order of the stream among them, give the same frame |
| FrameAssembly.ResultsAreBlocks | src/server.rs:419-425 | results whose blocks are a permutation of the image's blocks all fit in the frame |
| FrameAssembly.ResultsDoNotOverlap | src/server.rs:419-425 | such results never overlap |
| FrameAssembly.WholeFrame | src/server.rs:419-425 | in any order of the image's blocks, every pixel of the frame comes from the block that contains it |
| Scene.ScanFindsClosest | src/scene.rs:58-76 | no hit is returned exactly when no candidate hit; otherwise the result is a closest hit, and the earliest one on ties; the final `t_max` is the query's, shortened to the closest hit |
| Scene.ScanShrinks | src/scene.rs:61-64 | `t_max` never increases during the traversal and never exceeds the query's |
| Scene.ScanBelowEveryHit | src/scene.rs:61-64 | after any hit, `t_max` is at most that hit's `t` |
| Scene.BuiltBoundsLayout | src/scene.rs:36-46 | `build_bvh` appends `|objects_other| + |objects_sphere|` bounds, other objects first, each tagged with its position in its own list |
| Scene.OtherBoundsMisresolved | src/scene.rs:36-60 | the bound of the first other object is tested as the first sphere, and with no spheres its lookup panics |
| Scene.TaggedBoundsResolveToOwnObject | src/scene.rs:36-46 | with the list kind recorded in each bound, every built bound resolves to the object it was built from |
| Scene.IntersectTaggedTestsOwnObjects | src/scene.rs:49-77 | the corrected search never panics and tests every traversed bound against its own object, of either kind |
| Scene.Scene.constructor | src/scene.rs:22-29 | a new scene has no objects, no bounds and no index |
| Scene.Scene.AddSphere | src/scene.rs:31-34 | the sphere is appended to the sphere list |
| Scene.Scene.BuildBvh | src/scene.rs:36-46 | the new bounds are appended to any existing ones, and the index is built over them all |
| Scene.Scene.Intersect | src/scene.rs:49-77 | without an index, no hit; a bound whose index is past the sphere list panics; otherwise the closest hit over the spheres looked up |

## Left out

- Rendering math is not modelled: ray colour, materials, camera,
  random sampling, `render_block` itself, and the pan interpolation in
  `make_renderer`. It is floating point and random. src/main.rs,
  src/material.rs and src/camera.rs are not part of this model.
- Concurrency is not modelled: the actix actors, websockets and HTTP
  server, the crossbeam scope and channels, the `select!` timeout, the
  stop flag, the thread pools, and `FuturesOrdered`. The model keeps
  only their sequential effect on the shared state; for the stream of
  block results that is the spiral order, which the frame-assembly
  lemmas cover as one order among all. The rendering of a
  frame that `reset_job` queues is not modelled.
- The drain loop's return when the job channel disconnects is not
  modelled. Nor is anything that reads from the channel.
- Serialisation is not modelled: `serde_json` encoding of messages and
  jobs, `render_job_fields`, and the message handler's JSON text.
- The PNG thumbnail, the GIF encoder, BVH build and traversal, the
  Chebyshev spiral iterator, and per-object bounds and ray tests are
  library code that is not shown. They are parameters or opaque values.
- Server.ServerData.Started and Server.ServerData.Stopping require the
  address to be new or registered. In the source, a violation is a
  failed `assert!`.
- Server.ServerData.PushFrame requires that the status holds fewer
  frames than the job has. The job's frame producer sends one frame
  per job frame, but the model does not contain that producer.
- Server.UpdateClient: a mailbox is a value that fills up or is closed.
  A mailbox that closes or drains during a pass is not modelled, and
  closed viewers are never removed, as in the source.
- Server.SessionFollowsProtocol uses the same pool status string for
  every pass.
- FrameAssembly.CopyFrom: the `copy_from` semantics are the image
  library's (it fails unless the source fits), which is not shown.
- FrameAssembly.AssembleFrame returns `ok == false` where the source's
  `unwrap` would panic.
- Render.ImageBlocker.constructor requires the block grid's arithmetic
  to fit in `u32` (`FitsU32`). The overflowing cases of
  `block_count_x * block_count_y` and `(block_x + 1) * 32` are not
  modelled.
- Render.ImageBlocker.Next uses one block size for both axes, so
  `y = block_y * block_width` (src/render.rs:65) equals the intended
  `block_y * block_height`.
- `usize` is an unbounded `nat`. Frame counts and indices do not
  overflow.
- Scene: floats are reals, so NaN and rounding are not modelled.
  `intersect_packet` and the other object kinds' geometry are not part
  of this model.

## Findings

| source | as written | input that shows it | evidently intended | confidence | as-written member | corrected member |
|---|---|---|---|---|---|---|
| src/scene.rs:59 | every traversed bound is looked up in `objects_sphere`, but `build_bvh` numbers the bounds of `objects_other` from 0 as well (src/scene.rs:38-40) | one other object and one sphere: the other object's bound is tested as the sphere; one other object and no spheres: the lookup panics | each bound records which list its object is in, and the lookup uses that list | not executed (the shown code never adds an other object, so the fault is latent) | Scene.OtherBoundsMisresolved | Scene.IntersectTaggedTestsOwnObjects |
