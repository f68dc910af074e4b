/**
 * The per-frame decisions of the Julia compute pipeline (src/julia.rs),
 * stripped of Bevy and wgpu: which parameters are uploaded, when preparing
 * them is retried, when the bind group is (re)built, how many workgroups one
 * dispatch launches, and that the compute node runs before the main pass.
 */
module Julia {
  import opened Wrappers

  // ---------------------------------------------------------------------------
  // Data
  // ---------------------------------------------------------------------------

  const U32_MAX: int := 0xFFFF_FFFF

  /** Rust's `u32`. */
  type U32 = n: int | 0 <= n <= U32_MAX

  /** `Vec2`, with `f32` components taken as reals. */
  datatype Vec2 = Vec2(x: real, y: real)

  /** `Handle<Image>` and `Handle<JuliaData>`: asset ids. */
  type ImageHandle = nat
  type DataHandle = nat

  /** The `JuliaData` asset: the parameters the app edits and the target image. */
  datatype JuliaData = JuliaData(c: Vec2, viewCenter: Vec2, viewScale: real, viewAspect: real,
                                 iters: U32, image: ImageHandle)

  /** The uniform block the shader reads. */
  datatype JuliaBuffer = JuliaBuffer(c: Vec2, w: real, h: real, viewCenter: Vec2,
                                     viewScale: real, viewAspect: real, iters: U32)

  /** A main-world image: the extent of its texture descriptor. */
  datatype Image = Image(width: U32, height: U32)

  /** A GPU-resident image: its texture view and its size as floats. */
  datatype GpuImage = GpuImage(view: nat, size: Vec2)

  /** The prepared asset: the parameter buffer (kept as the record it encodes). */
  datatype GpuJuliaData = GpuJuliaData(params: JuliaBuffer)

  /** `JuliaSize`: the texture extent recorded at extraction. */
  datatype JuliaSize = JuliaSize(w: U32, h: U32)

  // ---------------------------------------------------------------------------
  // JuliaBuffer::new
  // ---------------------------------------------------------------------------

  /** `JuliaBuffer::new`: the asset's shader parameters, sized by the GPU image. */
  function NewBuffer(data: JuliaData, image: GpuImage): JuliaBuffer {
    JuliaBuffer(data.c, image.size.x, image.size.y, data.viewCenter, data.viewScale,
                data.viewAspect, data.iters)
  }

  /** Two assets agree on everything the shader is given, the image handle aside. */
  predicate SameShaderParams(d1: JuliaData, d2: JuliaData) {
    d1.c == d2.c && d1.viewCenter == d2.viewCenter && d1.viewScale == d2.viewScale
    && d1.viewAspect == d2.viewAspect && d1.iters == d2.iters
  }

  /**
   * The buffer determines the asset's shader parameters and the image's size,
   * and nothing else: it is equal for two (asset, image) pairs exactly when
   * those agree. In particular `w` and `h` never depend on the asset.
   */
  lemma NewBufferDeterminedBy(d1: JuliaData, i1: GpuImage, d2: JuliaData, i2: GpuImage)
    ensures NewBuffer(d1, i1) == NewBuffer(d2, i2) <==> SameShaderParams(d1, d2) && i1.size == i2.size
  {
    if NewBuffer(d1, i1) == NewBuffer(d2, i2) {
      assert i1.size.x == i2.size.x && i1.size.y == i2.size.y;
    }
  }

  /** The buffer's size fields are the image's size and its other fields the asset's. */
  lemma NewBufferFields(data: JuliaData, image: GpuImage)
    ensures NewBuffer(data, image).w == image.size.x && NewBuffer(data, image).h == image.size.y
    ensures NewBuffer(data, image).iters == data.iters && NewBuffer(data, image).c == data.c
    ensures NewBuffer(data, image).viewCenter == data.viewCenter
    ensures NewBuffer(data, image).viewScale == data.viewScale
    ensures NewBuffer(data, image).viewAspect == data.viewAspect
  {
  }

  // ---------------------------------------------------------------------------
  // prepare_asset
  // ---------------------------------------------------------------------------

  /** The outcome of `prepare_asset`: `Ok(GpuJuliaData)` or `Err(RetryNextUpdate(data))`. */
  datatype Prepared = Ready(gpu: GpuJuliaData) | RetryNextUpdate(data: JuliaData)

  /**
   * `JuliaData::prepare_asset`: ready with a buffer built from the asset and its
   * image once the image is GPU-resident, otherwise hand the asset back to be
   * prepared again next update.
   */
  function PrepareAsset(data: JuliaData, images: map<ImageHandle, GpuImage>): (r: Prepared)
    ensures r.Ready? <==> data.image in images
    ensures r.RetryNextUpdate? ==> r.data == data
  {
    if data.image in images then Ready(GpuJuliaData(NewBuffer(data, images[data.image])))
    else RetryNextUpdate(data)
  }

  /** A retried asset loses nothing: once its image arrives it prepares as if never retried. */
  lemma RetryThenReady(data: JuliaData, before: map<ImageHandle, GpuImage>,
                       after: map<ImageHandle, GpuImage>)
    requires PrepareAsset(data, before).RetryNextUpdate?
    requires data.image in after
    ensures PrepareAsset(PrepareAsset(data, before).data, after) == PrepareAsset(data, after)
    ensures PrepareAsset(data, after).gpu.params == NewBuffer(data, after[data.image])
  {
  }

  /** Preparing depends on the registry only through the asset's own image. */
  lemma PrepareDependsOnOwnImage(data: JuliaData, m1: map<ImageHandle, GpuImage>,
                                 m2: map<ImageHandle, GpuImage>)
    requires data.image in m1 <==> data.image in m2
    requires data.image in m1 ==> m1[data.image] == m2[data.image]
    ensures PrepareAsset(data, m1) == PrepareAsset(data, m2)
  {
  }

  /**
   * Preparing over successive updates, with the registry each update sees:
   * every retry feeds the carried asset into the next attempt, and there is
   * no limit on the number of attempts.
   */
  function PrepareOver(data: JuliaData, updates: seq<map<ImageHandle, GpuImage>>): (r: Prepared)
    requires |updates| > 0
    ensures r.RetryNextUpdate? ==> r.data == data && data.image !in updates[|updates| - 1]
    ensures r.Ready? ==> r.gpu.params.c == data.c && r.gpu.params.iters == data.iters
    ensures r.Ready? ==> r.gpu.params.viewCenter == data.viewCenter && r.gpu.params.viewScale == data.viewScale
    ensures r.Ready? ==> r.gpu.params.viewAspect == data.viewAspect
    decreases |updates|
  {
    match PrepareAsset(data, updates[0])
    case Ready(g) => Ready(g)
    case RetryNextUpdate(d) => if |updates| == 1 then RetryNextUpdate(d) else PrepareOver(d, updates[1..])
  }

  /** The attempts end ready at the first update whose registry holds the image. */
  lemma {:induction false} PrepareOverReadyAtFirst(data: JuliaData,
                                                   updates: seq<map<ImageHandle, GpuImage>>, k: nat)
    requires k < |updates| && data.image in updates[k]
    requires forall j :: 0 <= j < k ==> data.image !in updates[j]
    ensures PrepareOver(data, updates) == Ready(GpuJuliaData(NewBuffer(data, updates[k][data.image])))
  {
    if k > 0 {
      assert data.image !in updates[0];
      PrepareOverReadyAtFirst(data, updates[1..], k - 1);
    }
  }

  /** The attempts still retry, with the asset unchanged, exactly when no update held the image. */
  lemma {:induction false} PrepareOverRetries(data: JuliaData, updates: seq<map<ImageHandle, GpuImage>>)
    requires |updates| > 0
    ensures PrepareOver(data, updates).RetryNextUpdate?
            <==> forall j :: 0 <= j < |updates| ==> data.image !in updates[j]
    ensures PrepareOver(data, updates).RetryNextUpdate? ==> PrepareOver(data, updates).data == data
  {
    if data.image in updates[0] {
    } else if |updates| > 1 {
      PrepareOverRetries(data, updates[1..]);
      assert forall j :: 1 <= j < |updates| ==> updates[j] == updates[1..][j - 1];
    }
  }

  // ---------------------------------------------------------------------------
  // Bind group and its layout
  // ---------------------------------------------------------------------------

  datatype StorageAccess = ReadOnly | WriteOnly | ReadWrite
  datatype TextureFormat = R32Float | Rgba8UnormSrgb
  datatype ViewDimension = D1 | D2 | D3

  /** The kind of resource a layout slot accepts. */
  datatype BindingType =
    | StorageTexture(access: StorageAccess, format: TextureFormat, dimension: ViewDimension)
    | UniformBuffer(hasDynamicOffset: bool)

  /** A `BindGroupLayoutEntry` of a compute-only layout. */
  datatype LayoutEntry = LayoutEntry(binding: nat, ty: BindingType)

  /** The resource a bind-group slot holds. */
  datatype BindingResource = TextureView(view: nat) | Buffer(params: JuliaBuffer)

  datatype BindGroupEntry = BindGroupEntry(binding: nat, resource: BindingResource)

  datatype BindGroup = BindGroup(entries: seq<BindGroupEntry>)

  /** The pipeline's bind group layout: the R32Float storage texture, then the uniforms. */
  const JuliaLayout: seq<LayoutEntry> :=
    [LayoutEntry(0, StorageTexture(ReadWrite, R32Float, D2)), LayoutEntry(1, UniformBuffer(false))]

  /** A resource fits a slot: a texture view a storage texture, a buffer a uniform block. */
  predicate Fits(r: BindingResource, ty: BindingType) {
    match r
    case TextureView(_) => ty.StorageTexture?
    case Buffer(_) => ty.UniformBuffer?
  }

  /** A bind group matches a layout entry by entry, binding numbers included. */
  predicate Matches(group: BindGroup, layout: seq<LayoutEntry>) {
    |group.entries| == |layout|
    && forall i :: 0 <= i < |layout| ==>
         group.entries[i].binding == layout[i].binding && Fits(group.entries[i].resource, layout[i].ty)
  }

  /** The group `queue_bind_group` builds: the texture view at 0, the parameters at 1. */
  function JuliaBindGroup(view: nat, params: JuliaBuffer): (g: BindGroup)
    ensures Matches(g, JuliaLayout)
  {
    BindGroup([BindGroupEntry(0, TextureView(view)), BindGroupEntry(1, Buffer(params))])
  }

  /** Swapping the two resources breaks the layout: the order of the entries matters. */
  lemma SwappedGroupDoesNotMatch(view: nat, params: JuliaBuffer)
    ensures !Matches(BindGroup([BindGroupEntry(0, Buffer(params)), BindGroupEntry(1, TextureView(view))]),
                     JuliaLayout)
  {
    assert !Fits(Buffer(params), JuliaLayout[0].ty);
  }

  // ---------------------------------------------------------------------------
  // Workgroup sizing
  // ---------------------------------------------------------------------------

  /** The side of the shader's square workgroup. */
  const WORKGROUP_SIZE: nat := 8

  /**
   * `(n + 7) / 8` in `u32`: the number of 8-wide workgroups along an axis of
   * `n` pixels, the least count whose groups cover all of them. The sum must
   * not overflow.
   */
  function WorkgroupCount(n: U32): (g: U32)
    requires n <= U32_MAX - 7
    ensures WORKGROUP_SIZE * g >= n
    ensures WORKGROUP_SIZE * g < n + WORKGROUP_SIZE
  {
    (n + 7) / 8
  }

  /** No smaller count covers the axis. */
  lemma WorkgroupCountIsLeast(n: U32, g: nat)
    requires n <= U32_MAX - 7
    requires WORKGROUP_SIZE * g >= n
    ensures WorkgroupCount(n) <= g
  {
  }

  /** Every pixel of the axis lies in a launched workgroup, and every workgroup holds a pixel. */
  lemma WorkgroupsCoverExactly(n: U32, x: nat, k: nat)
    requires n <= U32_MAX - 7
    ensures x < n ==> x / WORKGROUP_SIZE < WorkgroupCount(n)
    ensures k < WorkgroupCount(n) ==> WORKGROUP_SIZE * k < n
  {
  }

  /** Concrete counts: an empty axis launches nothing, 401 x 399 pixels launch 51 x 50 groups. */
  lemma WorkgroupCountExamples()
    ensures WorkgroupCount(0) == 0 && WorkgroupCount(1) == 1 && WorkgroupCount(8) == 1
    ensures WorkgroupCount(9) == 2 && WorkgroupCount(401) == 51 && WorkgroupCount(399) == 50
  {
  }

  /** The three counts of one `dispatch_workgroups` call. */
  datatype Workgroups = Workgroups(x: U32, y: U32, z: U32)

  /** Whether a dispatch covers a `w` x `h` texture with no workgroup wholly outside it. */
  predicate CoversExactly(d: Workgroups, size: JuliaSize) {
    d.z == 1
    && WORKGROUP_SIZE * d.x >= size.w && WORKGROUP_SIZE * (d.x - 1) < size.w
    && WORKGROUP_SIZE * d.y >= size.h && WORKGROUP_SIZE * (d.y - 1) < size.h
  }

  /** The size fits the `+ 7` of the sizing in `u32`. */
  predicate SizeFits(size: JuliaSize) {
    size.w <= U32_MAX - 7 && size.h <= U32_MAX - 7
  }

  // ---------------------------------------------------------------------------
  // The render world
  // ---------------------------------------------------------------------------

  /**
   * The render-world resources the Julia systems read and write. `None`
   * stands for a resource not (yet) inserted.
   */
  class RenderWorld {
    /** `RenderAssets<Image>`: images resident on the GPU. */
    var gpuImages: map<ImageHandle, GpuImage>
    /** `RenderAssets<JuliaData>`: prepared parameter buffers. */
    var prepared: map<DataHandle, GpuJuliaData>
    /** The extracted `Handle<JuliaData>` resource. */
    var dataHandle: Option<DataHandle>
    /** `JuliaSize`. */
    var size: Option<JuliaSize>
    /** `JuliaImage`. */
    var juliaImage: Option<ImageHandle>
    /** `JuliaBindGroup`. */
    var bindGroup: Option<BindGroup>

    /**
     * Extraction inserts the handle, the size and the image together, a bind
     * group is only ever inserted after extraction, and every bind group
     * ever inserted fits the pipeline's layout.
     */
    ghost predicate Valid()
      reads this
    {
      (dataHandle.Some? <==> size.Some?) && (size.Some? <==> juliaImage.Some?)
      && (bindGroup.Some? ==> size.Some?)
      && (bindGroup.Some? ==> Matches(bindGroup.value, JuliaLayout))
    }

    /** A render world before the first frame: no resources, no assets. */
    constructor ()
      ensures Valid()
      ensures gpuImages == map[] && prepared == map[]
      ensures dataHandle == None && size == None && juliaImage == None && bindGroup == None
    {
      gpuImages := map[];
      prepared := map[];
      dataHandle := None;
      size := None;
      juliaImage := None;
      bindGroup := None;
    }

    /**
     * `extract_julia`: copy the main world's handle into the render world and
     * record the asset's image and that image's extent. Both lookups unwrap,
     * so the asset and its image must exist.
     */
    method ExtractJulia(handle: DataHandle, assets: map<DataHandle, JuliaData>,
                        images: map<ImageHandle, Image>)
      requires Valid()
      requires handle in assets && assets[handle].image in images
      modifies this
      ensures Valid()
      ensures dataHandle == Some(handle)
      ensures juliaImage == Some(assets[handle].image)
      ensures size == Some(JuliaSize(images[assets[handle].image].width,
                                     images[assets[handle].image].height))
      ensures gpuImages == old(gpuImages) && prepared == old(prepared) && bindGroup == old(bindGroup)
    {
      dataHandle := Some(handle);
      var data := assets[handle];
      var image := images[data.image];
      size := Some(JuliaSize(image.width, image.height));
      juliaImage := Some(data.image);
    }

    /**
     * The render-asset step for one `JuliaData` asset: a ready result is
     * stored under its handle, a retry stores nothing and hands the asset back.
     */
    method PrepareJulia(handle: DataHandle, data: JuliaData) returns (retry: Option<JuliaData>)
      requires Valid()
      modifies this
      ensures Valid()
      ensures data.image in gpuImages ==> retry == None
      ensures data.image in gpuImages ==> prepared == old(prepared)[handle := PrepareAsset(data, gpuImages).gpu]
      ensures data.image !in gpuImages ==> retry == Some(data) && prepared == old(prepared)
      ensures gpuImages == old(gpuImages) && dataHandle == old(dataHandle) && size == old(size)
      ensures juliaImage == old(juliaImage) && bindGroup == old(bindGroup)
    {
      var outcome := PrepareAsset(data, gpuImages);
      match outcome {
        case Ready(gpu) =>
          prepared := prepared[handle := gpu];
          retry := None;
        case RetryNextUpdate(d) =>
          retry := Some(d);
      }
    }

    /**
     * `queue_bind_group`: once the parameters are prepared, insert a bind
     * group of the image's view and the parameter buffer; otherwise write
     * nothing, so an earlier bind group stays. Indexing `gpu_images` panics
     * unless the image is resident.
     */
    method QueueBindGroup()
      requires Valid()
      requires dataHandle.Some? && juliaImage.Some? && juliaImage.value in gpuImages
      modifies this
      ensures Valid()
      ensures gpuImages == old(gpuImages) && prepared == old(prepared) && dataHandle == old(dataHandle)
      ensures size == old(size) && juliaImage == old(juliaImage)
      ensures dataHandle.value in prepared ==>
        bindGroup == Some(JuliaBindGroup(gpuImages[juliaImage.value].view, prepared[dataHandle.value].params))
      ensures dataHandle.value !in prepared ==> bindGroup == old(bindGroup)
      ensures bindGroup.Some? ==> Matches(bindGroup.value, JuliaLayout)
    {
      var view := gpuImages[juliaImage.value];
      if dataHandle.value in prepared {
        var dataBuffer := prepared[dataHandle.value];
        bindGroup := Some(JuliaBindGroup(view.view, dataBuffer.params));
      }
    }

    /**
     * `JuliaDispatch::run`: with a bind group, dispatch enough 8 x 8
     * workgroups to cover the recorded size; without one, dispatch nothing.
     * The node reports success either way.
     */
    function Run(): (d: Option<Workgroups>)
      reads this
      requires Valid()
      requires bindGroup.Some? ==> SizeFits(size.value)
      ensures d.Some? <==> bindGroup.Some?
      ensures d.Some? ==> CoversExactly(d.value, size.value)
    {
      if bindGroup.Some? then
        Some(Workgroups(WorkgroupCount(size.value.w), WorkgroupCount(size.value.h), 1))
      else None
    }

    /**
     * One frame in stage order: extract, prepare the extracted asset, queue,
     * run the graph. With the image resident the parameters are ready, so the
     * frame binds the image's view and dispatches workgroups covering it.
     */
    method Frame(handle: DataHandle, assets: map<DataHandle, JuliaData>,
                 images: map<ImageHandle, Image>) returns (dispatch: Option<Workgroups>)
      requires Valid()
      requires handle in assets && assets[handle].image in images && assets[handle].image in gpuImages
      requires SizeFits(JuliaSize(images[assets[handle].image].width, images[assets[handle].image].height))
      modifies this
      ensures Valid()
      ensures gpuImages == old(gpuImages)
      ensures dataHandle == Some(handle) && juliaImage == Some(assets[handle].image)
      ensures size == Some(JuliaSize(images[assets[handle].image].width, images[assets[handle].image].height))
      ensures prepared == old(prepared)[handle := GpuJuliaData(NewBuffer(assets[handle], gpuImages[assets[handle].image]))]
      ensures bindGroup == Some(JuliaBindGroup(gpuImages[assets[handle].image].view, prepared[handle].params))
      ensures dispatch.Some?
      ensures CoversExactly(dispatch.value, JuliaSize(images[assets[handle].image].width,
                                                      images[assets[handle].image].height))
    {
      ExtractJulia(handle, assets, images);
      var _ := PrepareJulia(handle, assets[handle]);
      QueueBindGroup();
      dispatch := Run();
    }
  }

  // ---------------------------------------------------------------------------
  // Render graph ordering
  // ---------------------------------------------------------------------------

  /** The node names involved: the compute node and the 2D main pass. */
  const JULIA_NODE: string := "julia"
  const MAIN_PASS: string := "main_pass"

  /** A render graph reduced to its node names and ordering edges. */
  datatype RenderGraph = RenderGraph(nodes: set<string>, edges: set<(string, string)>)

  /** `add_node`: register a node. */
  function AddNode(g: RenderGraph, name: string): (r: RenderGraph)
    ensures r.nodes == g.nodes + {name} && name in r.nodes
    ensures r.edges == g.edges
  {
    RenderGraph(g.nodes + {name}, g.edges)
  }

  /** `add_node_edge`: order `from` before `to`; an error unless both nodes exist. */
  function AddNodeEdge(g: RenderGraph, from: string, to: string): (r: Option<RenderGraph>)
    ensures r.Some? <==> from in g.nodes && to in g.nodes
  {
    if from in g.nodes && to in g.nodes then Some(RenderGraph(g.nodes, g.edges + {(from, to)}))
    else None
  }

  /** The plugin's two graph calls; the `unwrap` needs the result to be `Some`. */
  function WithJuliaNode(g: RenderGraph): (r: Option<RenderGraph>)
    ensures r.Some? <==> MAIN_PASS in g.nodes
  {
    AddNodeEdge(AddNode(g, JULIA_NODE), JULIA_NODE, MAIN_PASS)
  }

  /** A run order: every node exactly once, and every edge's source before its target. */
  predicate IsSchedule(g: RenderGraph, order: seq<string>) {
    (forall n :: n in g.nodes ==> n in order)
    && (forall i :: 0 <= i < |order| ==> order[i] in g.nodes)
    && (forall i, j :: 0 <= i < j < |order| ==> order[i] != order[j])
    && (forall i, j :: 0 <= i < |order| && 0 <= j < |order| && (order[i], order[j]) in g.edges ==> i < j)
  }

  /** The position of a name in a run order. */
  function IndexOf(order: seq<string>, name: string): (i: nat)
    requires name in order
    ensures i < |order| && order[i] == name
  {
    if order[0] == name then 0 else 1 + IndexOf(order[1..], name)
  }

  /**
   * Every run order of the extended graph runs the Julia dispatch before the
   * main pass, and keeps every ordering the graph had before.
   */
  lemma JuliaRunsBeforeMainPass(g: RenderGraph, order: seq<string>)
    requires MAIN_PASS in g.nodes
    requires IsSchedule(WithJuliaNode(g).value, order)
    ensures JULIA_NODE in order && MAIN_PASS in order
    ensures IndexOf(order, JULIA_NODE) < IndexOf(order, MAIN_PASS)
    ensures forall e :: e in g.edges ==> e in WithJuliaNode(g).value.edges
  {
    var h := WithJuliaNode(g).value;
    assert JULIA_NODE in h.nodes && MAIN_PASS in h.nodes;
    var i, j := IndexOf(order, JULIA_NODE), IndexOf(order, MAIN_PASS);
    assert (order[i], order[j]) in h.edges;
  }
}
