# bevy_julia core in Dafny

A verified model of the two computational parts of bevy_julia, a Bevy app that renders a Julia set with a compute shader and colours it through a gradient lookup texture.

- **The colour ramp** (`src/colorramp.rs`, module `Colorramp` in `colorramp.dfy`). The model has:
  - a `ColorRamp` class whose `ticks` sequence stays sorted by position;
  - `Add`, which pushes a tick and re-sorts;
  - `Interpolate`, which scans for the first adjacent pair that brackets a position and blends linearly over it;
  - `BuildTextureData`, which bakes a `width`-pixel RGBA8 row and repeats it `height` times.

  Each method is proved against a specification function on the ticks: `Insert`/`SortByPosition`, `InterpolateAt` and `TextureData`. Lemmas then prove what those functions promise: sortedness and permutation, stability, and where interpolation is defined. They also prove the exact colours at the ticks, the blend inside a pair, channel bounds and the byte layout of the texture. Concrete witnesses cover a black-to-white ramp and the six-tick start-up gradient from `src/main.rs`.
- **The per-frame Julia pipeline** (`src/julia.rs`, module `Julia` in `julia.dfy`). The model has:
  - `JuliaBuffer::new`;
  - the Ready/Retry decision of `prepare_asset`;
  - a `RenderWorld` class holding the render-world resources, with `ExtractJulia`, `PrepareJulia` and `QueueBindGroup` as methods that overwrite them;
  - `Run`, which decides the dispatch and its `(w + 7) / 8` workgroup counts;
  - the render-graph edge that orders the `julia` node before the main pass.

`wrappers.dfy` holds the `Option` type that stands for Rust's `Option`.

Modelling choices:
- Positions, colour channels and `Vec2` components are `real`. Bytes are `Byte` (0..255), `u32` is `U32` and handles are `nat`.
- The 0/0 that `interpolate` computes on a zero-width bracket gives NaN channels. It is kept as `Sample.NaN`. Rust's `as u8` turns NaN into 0.
- `f32::round` (halves away from zero) and the saturating `as u8` are written out.
- Where the code would panic, a `requires` excludes that input:
  - an `unwrap` on `None`;
  - the `usize` underflow of `len() - 1`, `width - 1` or `height - 1` on zero;
  - a missing map key;
  - a `u32` overflow in `size.w + 7`, which panics in a debug build and wraps in a release build.

Behaviour of the code worth knowing, which the model keeps as written:
- **Samples are not spread evenly up to `t1`.** `build_texture_data` samples at `t0 + p * span / width` for p < width - 1 and forces the last sample to `t1`. A 4-pixel black-to-white ramp therefore samples 0, 0.25, 0.5 and 1, not 0, 1/3, 2/3 and 1. Its grey levels are 0, 64, 128 and 255 (`Colorramp.BlackToWhiteWidth4`), not 0, 85, 170 and 255.
- **Width 1.** A width of 1 samples only `t1`.
- **No validation errors.** The bake reports no error for bad arguments. It returns `None` for fewer than two ticks and underflows on width or height 0.
- **NaN only at the first pair.** Two ticks at one position give a NaN colour only when they are the first two ticks and the position is theirs. A later zero-width pair is never reached that way, because the pair before it already brackets its position, with factor 1 (`Colorramp.InterpolateNaNIff`).
- **A bind group is never removed.** `queue_bind_group` only ever inserts a bind group. When no parameters are stored under the extracted handle, an earlier group stays and `run` dispatches with it (`Julia.RenderWorld.QueueBindGroup`, `Julia.RenderWorld.Run`). A retried prepare stores nothing and removes nothing (`Julia.RenderWorld.PrepareJulia`), so parameters from an earlier success stay in place and queueing rebinds those.

## Model

| member | source | states |
|---|---|---|
| Colorramp.Scale | src/colorramp.rs:9-20 | `Color * f32` scales every channel: by 1 it is the identity, by 0 it gives the zero colour |
| Colorramp.Plus | src/colorramp.rs:22-33 | `Color + Color` adds channel-wise: the zero colour is neutral on either side |
| Colorramp.Lerp | src/colorramp.rs:73 | the blend `c1 * (1 - f) + c2 * f` moves every channel the fraction f of the way from c1 to c2 |
| Colorramp.LerpEndpoints | src/colorramp.rs:9-33 | the blend `c1 * (1 - f) + c2 * f` built from `Mul` and `Add` is `c1` at factor 0 and `c2` at factor 1 |
| Colorramp.LerpOfEqualColors | src/colorramp.rs:73 | blending a colour with itself gives that colour for every factor |
| Colorramp.LerpStaysInUnit | src/colorramp.rs:73 | a blend with factor in [0, 1] of colours whose channels lie in [0, 1] has channels in [0, 1] |
| Colorramp.ColorRamp.constructor | src/colorramp.rs:47-49 | a new ramp has no ticks and satisfies the sortedness invariant |
| Colorramp.ColorRamp.Add | src/colorramp.rs:51-58 | pushing a tick and sorting keeps the ticks sorted, and the new ticks are the old ones with the tick inserted at its stable position, which is what a stable sort of old ticks plus the tick gives |
| Colorramp.Insert | src/colorramp.rs:56-57 | the pushed tick placed at its stable position gives a list one longer |
| Colorramp.SortByPosition | src/colorramp.rs:56-57 | the stable sort by position (insertion sort) keeps the length; its order and permutation are `SortByPositionSpec` |
| Colorramp.InsertionPoint | src/colorramp.rs:56-57 | the stable position of a pushed tick: every tick after it has a greater position, and the tick before it has a position at or below |
| Colorramp.InsertSorted | src/colorramp.rs:56-57 | inserting into a sorted list keeps it sorted |
| Colorramp.InsertPermutation | src/colorramp.rs:52-57 | insertion adds exactly the new tick: one longer, same multiset plus the tick |
| Colorramp.InsertKeepsOrder | src/colorramp.rs:56-57 | removing the inserted tick from the result gives the old list back, so old ticks keep their relative order |
| Colorramp.InsertStable | src/colorramp.rs:56-57 | the new tick lands after every tick at or below its position (so after equal positions) and before every greater one |
| Colorramp.SortSortedIsIdentity | src/colorramp.rs:56-57 | the stable sort leaves a sorted list unchanged |
| Colorramp.SortByPositionSpec | src/colorramp.rs:56-57 | the stable sort returns a sorted permutation of its input |
| Colorramp.InsertAtEnd | src/colorramp.rs:51-58 | a tick at or above the last position is appended at the end |
| Colorramp.PushThenSortIsInsert | src/colorramp.rs:51-58 | on a sorted list, push-then-sort equals a single stable insertion |
| Colorramp.FirstBracket | src/colorramp.rs:61-69 | the first pair from a start index whose positions enclose `pos`, bounds included; no earlier pair encloses it; none at all when the result is None |
| Colorramp.Mix | src/colorramp.rs:71-73 | the blend over a bracketing pair is NaN exactly when the pair has zero width (0 / 0), and otherwise is the first tick's colour at its position and the second tick's at its own |
| Colorramp.InterpolateAt | src/colorramp.rs:60-74 | `interpolate` as a function: the blend over `FirstBracket`; a value needs at least two ticks |
| Colorramp.InterpolateSomeIff | src/colorramp.rs:61-69 | interpolation has a value exactly when some adjacent pair brackets the position, whatever the order of the ticks |
| Colorramp.ColorRamp.Interpolate | src/colorramp.rs:60-74 | the scan with `break` returns exactly `InterpolateAt(ticks, pos)`: nothing without a bracketing pair, otherwise the blend over the first one |
| Colorramp.BracketExists | src/colorramp.rs:62-69 | on a sorted ramp every position between the first and last tick has a bracketing pair |
| Colorramp.InterpolateNoneIff | src/colorramp.rs:60-74 | on a sorted non-empty ramp interpolation has no value exactly when there is one tick or `pos` lies outside [first, last] |
| Colorramp.InterpolateDefinedOnRange | src/colorramp.rs:60-85 | interpolation has a value exactly on `range()` |
| Colorramp.Range | src/colorramp.rs:76-85 | `range()` has a value exactly when there are at least two ticks, and then it is the first and last tick's positions |
| Colorramp.RangeOrdered | src/colorramp.rs:76-85 | the range of a sorted ramp is ordered: first position at most last |
| Colorramp.FirstBracketIs | src/colorramp.rs:62-69 | when pair i brackets `pos` and no earlier pair does, the scan stops at i |
| Colorramp.InterpolateAtTick | src/colorramp.rs:70-73 | with strictly increasing positions, interpolating at a tick's position gives that tick's colour exactly |
| Colorramp.InterpolateWithinPair | src/colorramp.rs:70-73 | with strictly increasing positions, the point a fraction f in [0, 1] along pair i interpolates to the blend of that pair with factor f |
| Colorramp.InterpolatePastStart | src/colorramp.rs:70-73 | the same for f in (0, 1]: pair i is the one chosen and its factor is f |
| Colorramp.InterpolateInsideBracket | src/colorramp.rs:62-73 | a position in (p_i, p_i+1] of a strictly increasing ramp is blended over pair i with factor `(pos - p_i) / (p_i+1 - p_i)` |
| Colorramp.FractionOfSpan | src/colorramp.rs:71-72 | the point a fraction f in (0, 1] along [p1, p2] lies in (p1, p2] and its factor `relpos / (p2 - p1)` is f |
| Colorramp.InterpolateNaNIff | src/colorramp.rs:61-73 | on a sorted ramp interpolation gives NaN exactly when the first two ticks share a position and the position interpolated is that one; a later zero-width pair is never reached with NaN |
| Colorramp.InterpolateFiniteWhenStrict | src/colorramp.rs:71-72 | on a sorted ramp whose first two ticks are apart (in particular one with strictly increasing positions) interpolation never produces NaN |
| Colorramp.InterpolateStaysInUnit | src/colorramp.rs:70-73 | on such a ramp with channels in [0, 1], interpolation gives finite colours with channels in [0, 1] |
| Colorramp.CoincidentTicksGiveNaN | src/colorramp.rs:71-72 | the ramp with ticks at 0, 0 and 1 interpolated at 0 stops the scan on its zero-width first pair, and the result is NaN |
| Colorramp.RoundHalfAway | src/colorramp.rs:95-98 | `f32::round`: the integer nearest x, with halves going away from zero |
| Colorramp.SaturateToByte | src/colorramp.rs:95-98 | `as u8` keeps exactly the values in 0..255 and saturates below to 0 and above to 255 |
| Colorramp.ChannelByte | src/colorramp.rs:95-98 | `(x * 255.).round() as u8` is the nearest byte to x * 255 inside [0, 255] and saturates to 0 and 255 outside |
| Colorramp.PixelBytes | src/colorramp.rs:95-98 | a sample becomes four bytes; NaN channels become 0 |
| Colorramp.SamplePos | src/colorramp.rs:89-100 | every sample position lies in the range [t0, t1] |
| Colorramp.SampleAt | src/colorramp.rs:94-100 | `interpolate(pos).unwrap()` at a position inside a sorted ramp's range; its contract is `SampleAtUnwraps` |
| Colorramp.SampleAtUnwraps | src/colorramp.rs:94-100 | inside a sorted ramp's range interpolation has a value, so the `unwrap` cannot fail, and the sample is that value |
| Colorramp.Pixel | src/colorramp.rs:93-104 | pixel p's four bytes are the quantised interpolation at t0 + p * span / width for p < width - 1 and at t1 for the last pixel |
| Colorramp.RowPrefix | src/colorramp.rs:92-104 | the first n baked pixels take 4n bytes |
| Colorramp.Repeat | src/colorramp.rs:105-108 | h copies of a row take h times its length |
| Colorramp.TextureData | src/colorramp.rs:87-110 | the bake has no value exactly when the ramp has no range, and otherwise is 4 * width * height bytes |
| Colorramp.RowPrefixStep | src/colorramp.rs:92-104 | each sample position of the bake is in range, so the `unwrap` succeeds, and the next pixel is the quantised interpolation there |
| Colorramp.ColorRamp.BakeRow | src/colorramp.rs:89-104 | the two row loops produce exactly the specified `width`-pixel row |
| Colorramp.ColorRamp.PixelBytesAt | src/colorramp.rs:93-98 | the four pushed bytes extend the row by the pixel for position p |
| Colorramp.ColorRamp.BuildTextureData | src/colorramp.rs:87-110 | the method returns exactly `TextureData(ticks, width, height)`: None without a range, else the row repeated `height` times |
| Colorramp.RowPixel | src/colorramp.rs:92-104 | pixel p of the row sits at bytes 4p to 4p + 4 |
| Colorramp.RepeatCopy | src/colorramp.rs:105-108 | copy k of the repeated row is the row itself |
| Colorramp.TextureDataLayout | src/colorramp.rs:87-110 | the bake is `height` identical rows, and pixel p of each row is the quantised interpolation at its sample position |
| Colorramp.TextureRowEnds | src/colorramp.rs:93-104 | on a strictly increasing ramp the last pixel is the last tick's colour and, from width 2, the first pixel is the first tick's |
| Colorramp.TextureDataEnds | src/colorramp.rs:87-110 | such a bake starts with the first tick's bytes and ends with the last tick's |
| Colorramp.RepeatEnds | src/colorramp.rs:105-108 | a repeated row starts and ends as the row does |
| Colorramp.BlackToWhiteSample | src/colorramp.rs:60-74 | on the black-to-white ramp the sample at x in [0, 1] is the opaque grey of level x |
| Colorramp.GreyLevelBytes | src/colorramp.rs:95-98 | grey levels 0, 0.25, 0.5 and 1 quantise to 0, 64, 128 and 255 (63.75 and 127.5 round up) |
| Colorramp.BlackToWhitePixel | src/colorramp.rs:92-104 | pixel p of that ramp baked 4 wide is the grey of position p/4, and of 1 for the last pixel |
| Colorramp.BlackToWhiteRow | src/colorramp.rs:89-104 | the row of that ramp baked 4 wide, pixel by pixel |
| Colorramp.BlackToWhiteWidth4 | src/colorramp.rs:87-110 | the black-to-white ramp baked 4 x 1 is the 16 bytes 0,0,0,255, 64,64,64,255, 128,128,128,255, 255,255,255,255 |
| Colorramp.AddInOrder | src/main.rs:84-90 | adding ticks in ascending order of position leaves them in call order |
| Colorramp.StartupRamp | src/main.rs:84-90 | the six start-up `add` calls leave exactly the six start-up ticks, sorted |
| Colorramp.StartupTicksStrict | src/main.rs:85-90 | the start-up positions 0, 0.04, 0.2, 0.5, 0.8 and 1 are strictly increasing |
| Colorramp.StartupBakeEnds | src/main.rs:103 | the start-up bake at 1024 x 1 has a value of 4096 bytes, opaque black first and opaque white last |
| Colorramp.StartupGradient | src/main.rs:84-103 | running the start-up adds and the 1024 x 1 bake gives Some of 4096 bytes, with black first and white last, so the `unwrap` succeeds |
| Julia.NewBuffer | src/julia.rs:59-71 | `JuliaBuffer::new`: the asset's c, view centre, scale, aspect and iterations, with `w` and `h` from the GPU image's size; its contract is `NewBufferDeterminedBy` and `NewBufferFields` |
| Julia.NewBufferDeterminedBy | src/julia.rs:59-71 | two buffers are equal exactly when the assets agree on c, view centre, scale, aspect and iterations and the images agree on size; the asset's image handle plays no part |
| Julia.NewBufferFields | src/julia.rs:60-70 | `w` and `h` are the GPU image's size; the other fields are copied from the asset |
| Julia.PrepareAsset | src/julia.rs:91-112 | ready exactly when the asset's image is resident; a retry carries the asset back unchanged |
| Julia.RetryThenReady | src/julia.rs:95-111 | a retried asset, once its image is resident, prepares as if never retried, with the buffer from that image |
| Julia.PrepareDependsOnOwnImage | src/julia.rs:95-96 | preparing depends on the registry only through the entry of the asset's own image |
| Julia.PrepareOver | src/julia.rs:91-112 | preparing over successive updates, each retry feeding the carried asset into the next: a retry still carries the original asset and its image was missing at the last update; a ready result carries the asset's c, view centre, scale, aspect and iteration count |
| Julia.PrepareOverReadyAtFirst | src/julia.rs:109-111 | over successive updates the asset becomes ready at the first update whose registry holds its image, with that image's buffer |
| Julia.PrepareOverRetries | src/julia.rs:109-111 | over successive updates it is still retrying, with the asset unchanged, exactly when no update held the image: there is no retry limit |
| Julia.JuliaBindGroup | src/julia.rs:147-160 | the bind group holds the texture view at binding 0 and the parameter buffer at binding 1, and matches the layout's storage-texture entry 0 and uniform-buffer entry 1 |
| Julia.SwappedGroupDoesNotMatch | src/julia.rs:183-203 | the layout fixes the order: a group with the two resources swapped does not match |
| Julia.WorkgroupCount | src/julia.rs:248 | `(n + 7) / 8` workgroups of 8 cover n pixels with less than one group to spare |
| Julia.WorkgroupCountIsLeast | src/julia.rs:248 | no smaller count of 8-wide groups covers n pixels |
| Julia.WorkgroupsCoverExactly | src/julia.rs:248 | every pixel lies in a launched group, and every launched group holds a pixel |
| Julia.WorkgroupCountExamples | src/julia.rs:248 | 0 pixels give 0 groups; 1 and 8 give 1; 9 gives 2; a 401 x 399 texture gives 51 x 50 |
| Julia.RenderWorld.constructor | src/julia.rs:118-163 | a render world before the first frame holds no GPU images, no prepared assets and none of the four resources `extract_julia` and `queue_bind_group` insert |
| Julia.RenderWorld.ExtractJulia | src/julia.rs:118-134 | extraction overwrites the handle, the size (the image descriptor's width and height) and the image handle, and leaves the bind group and prepared assets alone |
| Julia.RenderWorld.PrepareJulia | src/julia.rs:91-112 | a ready asset is stored under its handle; a retry stores nothing and returns the asset |
| Julia.RenderWorld.QueueBindGroup | src/julia.rs:136-163 | with prepared parameters the bind group becomes the one for the image's view and those parameters; without them nothing changes, so an earlier bind group stays; whichever group is bound afterwards, a stale one included, fits the pipeline layout |
| Julia.RenderWorld.Run | src/julia.rs:232-252 | a dispatch happens exactly when a bind group exists, and its counts cover the recorded size exactly with z = 1; a recorded size is guaranteed by the world's invariant, since a bind group is only inserted after extraction |
| Julia.RenderWorld.Frame | src/julia.rs:118-163 | a frame whose image is resident records the handle, the image and its size, stores the parameters, binds that image's view and dispatches groups that cover the texture exactly |
| Julia.AddNode | src/julia.rs:32 | `add_node` adds the name to the nodes and leaves the edges alone |
| Julia.AddNodeEdge | src/julia.rs:33 | adding an edge succeeds exactly when both nodes exist |
| Julia.WithJuliaNode | src/julia.rs:32-33 | registering the `julia` node and its edge succeeds, so the `unwrap` holds, exactly when the main pass is in the graph |
| Julia.JuliaRunsBeforeMainPass | src/julia.rs:32-33 | every run order of the extended graph runs `julia` before the main pass, and no earlier edge is lost |

## Left out

- f32 arithmetic. Rounding, overflow to infinity and NaN positions are not modelled; positions and channels are reals. `partial_cmp().unwrap()` panicking on a NaN position is not modelled.
- Colorramp.ColorRamp.Add: the library `sort_by` is modelled by moving the pushed tick left past greater positions. The result is the same, because a stable sort's output is determined by its input (`SortByPosition`). Its running time is not modelled.
- Colorramp.ColorRamp.Interpolate: an empty ramp is excluded by `requires`, since `len() - 1` underflows there.
- Colorramp.ColorRamp.BuildTextureData: width or height 0 on a ramp with a range is excluded by `requires` (`width - 1` and `height - 1` underflow). The `unwrap`s on `interpolate` are proved never to fail.
- Julia.RenderWorld.Run: the `Ok(())` result that the node always returns is not carried. The pipeline lookup (`unwrap` on `JuliaPipeline`) is assumed to succeed.
- Julia.RenderWorld.Run: sizes above `u32::MAX - 7` are excluded by `requires`. The `+ 7` would otherwise panic or wrap.
- Julia.RenderWorld.ExtractJulia: a missing asset or image is excluded by `requires` (the two `unwrap`s).
- Julia.RenderWorld.QueueBindGroup: an image missing from `gpu_images` is excluded by `requires` (the index panics). The `Res` parameters are assumed present.
- Julia.RenderWorld.Frame: this is a fixed stage order over one asset. Bevy's scheduler decides which assets are re-extracted and when retries run; that scheduling is not modelled. `PrepareOver` gives the retry behaviour over successive updates instead.
- The model does not relate the two image sizes. The texture-descriptor extent (`JuliaSize`, u32) and the GPU image size (`JuliaBuffer.w/h`, f32) are taken as given.
- `JuliaPipeline::from_world` (src/julia.rs:170-225): shader compilation and pipeline creation are device calls. Only the two layout entries are kept, as the constant `JuliaLayout`.
- The plugin registration (src/julia.rs:20-31): asset and plugin registration only. Its graph edge (lines 32-33) is modelled.
- The `encase` uniform encoding and `create_buffer_with_data` (src/julia.rs:97-104): byte layout in a library. The prepared asset holds the `JuliaBuffer` record.
- The `MAIN_PASS` name comes from Bevy and is taken as `"main_pass"`. The render graph is reduced to node names and edges.
- The WGSL shader, the GPU execution of the dispatch and the compositing pass: foreign code run on the GPU.
- `src/main.rs` is left out apart from the start-up ramp and its bake. That covers the app bootstrap, CSV loading in `load_path`, the time-driven `modi` and the resize handling, which are I/O and engine glue.
