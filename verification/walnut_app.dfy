/**
 * The application layer of WalnutApp.cpp (ExampleLayer): it holds the
 * render settings, the viewport size, the Renderer, and the portion state
 * that slices one render into one PartialRender call per UI frame.
 *
 * A frame's inputs from the UI are parameters: whether the Render and Reset
 * buttons were clicked, the values the three sliders hold afterwards, and the
 * viewport size measured at the end of the frame. `k` is the number of rows
 * per portion that the renderer derives from the viewport height and the
 * portion fraction 1 / portions.
 */
module WalnutApp {
  import opened Wrappers
  import opened Utils
  import opened Raster
  import opened Portions
  import opened Rendering

  class ExampleLayer<Scene, Camera> {
    const imageWidth: int
    const imageHeight: int
    var samplesPerPixel: int
    var maxDepth: int
    var viewportWidth: nat
    var viewportHeight: nat
    const renderer: Renderer<Scene, Camera>
    var portions: int
    var portionId: int
    var rendering: bool
    const scene: Scene
    const camera: Camera

    ghost predicate Valid()
      reads this, renderer
    {
      renderer.Valid() && renderer.activeScene == Some(scene) && renderer.activeCamera == Some(camera)
      && 1 <= samplesPerPixel <= 100 && 1 <= maxDepth <= 100 && 1 <= portions <= 100
      && 0 <= portionId && (!rendering ==> portionId == 0)
      && viewportWidth * viewportHeight < 0x1_0000_0000
    }

    /** The portion state as the sequencer value that Next steps. */
    function PortionState(): Sequencer
      reads this
    {
      Sequencer(portions, portionId, rendering)
    }

    /** The per-pixel colour source a render call started now would paint with. */
    function Pixels(shade: Shade<Scene, Camera>): Shader
      reads this
    {
      PixelFn(shade, scene, camera, samplesPerPixel, maxDepth, viewportWidth, viewportHeight)
    }

    /**
     * The default settings: a 500 × 375 viewport, 2 samples per pixel, depth 2,
     * 3 portions, idle; the renderer is bound to this layer's scene and camera.
     */
    constructor (scene: Scene, camera: Camera)
      ensures Valid() && fresh(renderer) && fresh(renderer.data) && !renderer.hasImage && renderer.data.Length == 0
      ensures this.scene == scene && this.camera == camera
      ensures imageWidth == 500 && imageHeight == 375
      ensures viewportWidth == 500 && viewportHeight == 375
      ensures samplesPerPixel == 2 && maxDepth == 2
      ensures portions == 3 && portionId == 0 && !rendering
    {
      imageWidth := 500;
      imageHeight := 500 / 4 * 3;
      samplesPerPixel, maxDepth := 2, 2;
      viewportWidth, viewportHeight := 500, 375;
      renderer := new Renderer();
      portions, portionId, rendering := 3, 0, false;
      this.scene := scene;
      this.camera := camera;
      new;
      renderer.SetScene(scene, camera);
    }

    /** Resizes the renderer to the viewport, then renders every pixel. */
    method Render(shade: Shade<Scene, Camera>)
      requires Valid()
      modifies renderer, renderer.data
      ensures Valid()
      ensures renderer.data == old(renderer.data) || fresh(renderer.data)
      ensures renderer.hasImage && renderer.width == viewportWidth && renderer.height == viewportHeight
      ensures renderer.data[..] == Image(viewportWidth, viewportHeight, Pixels(shade))
    {
      renderer.OnResize(viewportWidth, viewportHeight);
      renderer.Render(samplesPerPixel, maxDepth, shade);
    }

    /** Resizes the renderer to the viewport, then paints it with the placeholder colour. */
    method Reset()
      requires Valid()
      modifies renderer, renderer.data
      ensures Valid()
      ensures renderer.data == old(renderer.data) || fresh(renderer.data)
      ensures renderer.hasImage && renderer.width == viewportWidth && renderer.height == viewportHeight
      ensures forall i :: 0 <= i < renderer.data.Length ==> renderer.data[i] == Placeholder
    {
      renderer.OnResize(viewportWidth, viewportHeight);
      renderer.Reset();
    }

    /**
     * Resizes the renderer to the viewport, then renders one portion. `before`
     * is the buffer as the resize left it: the old contents when the size did
     * not change.
     */
    method PartialRender(k: nat, id: nat, finalPortion: bool, shade: Shade<Scene, Camera>)
      returns (ghost before: seq<bv32>)
      requires Valid()
      requires finalPortion || (id + 1) * k <= viewportHeight
      modifies renderer, renderer.data
      ensures Valid()
      ensures renderer.data == old(renderer.data) || fresh(renderer.data)
      ensures renderer.hasImage && renderer.width == viewportWidth && renderer.height == viewportHeight
      ensures |before| == viewportWidth * viewportHeight
      ensures old(renderer.hasImage && renderer.width == viewportWidth && renderer.height == viewportHeight)
              ==> before == old(renderer.data[..])
      ensures renderer.data[..] == PortionImage(before, viewportWidth, viewportHeight, k,
                                                Portion(id, finalPortion), Pixels(shade))
    {
      renderer.OnResize(viewportWidth, viewportHeight);
      before := renderer.data[..];
      renderer.PartialRender(k, id, finalPortion, samplesPerPixel, maxDepth, shade);
    }

    /**
     * The portion stepping of one frame: while a cycle runs, render the
     * current portion, non-final and moving to the next id while the id is
     * below portions - 1, otherwise final, ending the cycle; when idle, do
     * nothing. `before` is the buffer just before the portion is painted.
     */
    method StepPortion(k: nat, shade: Shade<Scene, Camera>) returns (issued: Option<Portion>, ghost before: seq<bv32>)
      requires Valid()
      requires (portions - 1) * k <= viewportHeight
      modifies this`portionId, this`rendering, renderer, renderer.data
      ensures Valid()
      ensures portionId == Next(old(PortionState())).0.portionId
      ensures rendering == Next(old(PortionState())).0.rendering
      ensures issued == Next(old(PortionState())).1
      ensures renderer.data == old(renderer.data) || fresh(renderer.data)
      ensures issued.Some? ==>
                renderer.hasImage && renderer.width == viewportWidth && renderer.height == viewportHeight
                && |before| == viewportWidth * viewportHeight
                && renderer.data[..] == PortionImage(before, viewportWidth, viewportHeight, k, issued.value, Pixels(shade))
      ensures issued.Some? && old(renderer.hasImage && renderer.width == viewportWidth && renderer.height == viewportHeight)
              ==> before == old(renderer.data[..])
      ensures issued.None? ==>
                renderer.data == old(renderer.data) && renderer.data[..] == old(renderer.data[..])
                && renderer.hasImage == old(renderer.hasImage)
                && renderer.width == old(renderer.width) && renderer.height == old(renderer.height)
    {
      issued := None;
      before := renderer.data[..];
      if rendering {
        if portionId < portions - 1 {
          MulMono(portionId + 1, portions - 1, k);
          before := PartialRender(k, portionId, false, shade);
          issued := Some(Portion(portionId, false));
          portionId := portionId + 1;
        } else {
          before := PartialRender(k, portionId, true, shade);
          issued := Some(Portion(portionId, true));
          portionId := 0;
          rendering := false;
        }
      }
    }

    /**
     * One UI frame. The Render button only starts a cycle (it does not render
     * the whole image at once); the Reset button clears the viewport; then the
     * portion stepping runs, rendering at most one portion; finally the sliders
     * and the viewport size take their new values. `before` is the buffer just
     * before a portion is painted.
     */
    method OnUIRender(renderClicked: bool, resetClicked: bool, k: nat, shade: Shade<Scene, Camera>,
                      newSamplesPerPixel: int, newMaxDepth: int, newPortions: int,
                      newViewportWidth: nat, newViewportHeight: nat)
      returns (issued: Option<Portion>, ghost before: seq<bv32>)
      requires Valid()
      requires (portions - 1) * k <= viewportHeight
      requires 1 <= newSamplesPerPixel <= 100 && 1 <= newMaxDepth <= 100 && 1 <= newPortions <= 100
      requires newViewportWidth * newViewportHeight < 0x1_0000_0000
      modifies this, renderer, renderer.data
      ensures Valid()
      ensures portionId == Next(old(PortionState()).(rendering := old(rendering) || renderClicked)).0.portionId
      ensures rendering == Next(old(PortionState()).(rendering := old(rendering) || renderClicked)).0.rendering
      ensures issued == Next(old(PortionState()).(rendering := old(rendering) || renderClicked)).1
      ensures samplesPerPixel == newSamplesPerPixel && maxDepth == newMaxDepth && portions == newPortions
      ensures viewportWidth == newViewportWidth && viewportHeight == newViewportHeight
      ensures renderer.data == old(renderer.data) || fresh(renderer.data)
      ensures issued.Some? ==>
                renderer.hasImage && renderer.width == old(viewportWidth) && renderer.height == old(viewportHeight)
                && |before| == old(viewportWidth) * old(viewportHeight)
                && renderer.data[..] == PortionImage(before, old(viewportWidth), old(viewportHeight), k, issued.value,
                                                     old(Pixels(shade)))
      ensures issued.Some? && resetClicked ==> forall i :: 0 <= i < |before| ==> before[i] == Placeholder
      ensures issued.Some? && !resetClicked
              && old(renderer.hasImage && renderer.width == viewportWidth && renderer.height == viewportHeight)
              ==> before == old(renderer.data[..])
      ensures issued.None? && resetClicked ==>
                renderer.hasImage && renderer.width == old(viewportWidth) && renderer.height == old(viewportHeight)
                && forall i :: 0 <= i < renderer.data.Length ==> renderer.data[i] == Placeholder
      ensures issued.None? && !resetClicked ==>
                renderer.data == old(renderer.data) && renderer.data[..] == old(renderer.data[..])
                && renderer.hasImage == old(renderer.hasImage)
                && renderer.width == old(renderer.width) && renderer.height == old(renderer.height)
    {
      if renderClicked {
        rendering := true;
      }
      if resetClicked {
        Reset();
      }
      issued, before := StepPortion(k, shade);
      samplesPerPixel, maxDepth, portions := newSamplesPerPixel, newMaxDepth, newPortions;
      viewportWidth, viewportHeight := newViewportWidth, newViewportHeight;
    }
  }

  /**
   * The buffer of `layer` holds the first f portions of a cycle of the
   * layer's portion count, painted over `first` at the viewport size.
   */
  ghost predicate Painted<Scene, Camera>(layer: ExampleLayer<Scene, Camera>, k: nat, shade: Shade<Scene, Camera>,
                                         f: nat, first: seq<bv32>)
    reads layer, layer.renderer, layer.renderer.data
  {
    var r := layer.renderer;
    r.hasImage && r.width == layer.viewportWidth && r.height == layer.viewportHeight
    && |first| == layer.viewportWidth * layer.viewportHeight
    && f <= layer.portions
    && r.data[..] == ApplyPortions(first, layer.viewportWidth, layer.viewportHeight, k,
                                   Cycle(layer.portions)[..f], layer.Pixels(shade))
  }

  /**
   * Frame f of a cycle started by the Render button: the frame's inputs keep
   * every setting and the viewport, and Reset is not clicked. The frame
   * issues portion f, so one more portion of the cycle is painted. `first`
   * is the buffer just before portion 0 was painted.
   */
  method CycleFrame<Scene, Camera>(layer: ExampleLayer<Scene, Camera>, k: nat, shade: Shade<Scene, Camera>,
                                   f: nat, ghost first: seq<bv32>)
    returns (ghost first': seq<bv32>)
    requires layer.Valid() && f < layer.portions
    requires (layer.portions - 1) * k <= layer.viewportHeight
    requires f == 0 ==> !layer.rendering
    requires f > 0 ==> layer.rendering && layer.portionId == f && Painted(layer, k, shade, f, first)
    modifies layer, layer.renderer, layer.renderer.data
    ensures layer.Valid()
    ensures layer.renderer.data == old(layer.renderer.data) || fresh(layer.renderer.data)
    ensures layer.samplesPerPixel == old(layer.samplesPerPixel) && layer.maxDepth == old(layer.maxDepth)
    ensures layer.portions == old(layer.portions)
    ensures layer.viewportWidth == old(layer.viewportWidth) && layer.viewportHeight == old(layer.viewportHeight)
    ensures f + 1 < layer.portions ==> layer.rendering && layer.portionId == f + 1
    ensures f + 1 == layer.portions ==> !layer.rendering
    ensures f > 0 ==> first' == first
    ensures Painted(layer, k, shade, f + 1, first')
  {
    var n := layer.portions;
    ghost var pix := layer.Pixels(shade);
    ghost var prev := layer.renderer.data[..];
    var issued;
    ghost var before;
    issued, before := layer.OnUIRender(f == 0, false, k, shade, layer.samplesPerPixel, layer.maxDepth, n,
                                       layer.viewportWidth, layer.viewportHeight);
    assert issued == Some(Cycle(n)[f]);
    assert Cycle(n)[..f + 1][..f] == Cycle(n)[..f];
    if f == 0 {
      first' := before;
    } else {
      first' := first;
      assert before == prev;
    }
  }

  /**
   * From any idle layer, clicking Render and letting `portions` frames pass,
   * with the settings, the viewport, `k` and the pixel colours unchanged and
   * Reset not clicked, leaves the full viewport image in the buffer and the
   * layer idle again: the same result as one full Render. `first` is the
   * buffer just before the first portion is painted.
   */
  method RenderCycle<Scene, Camera>(layer: ExampleLayer<Scene, Camera>, k: nat, shade: Shade<Scene, Camera>)
    returns (ghost first: seq<bv32>)
    requires layer.Valid() && !layer.rendering
    requires (layer.portions - 1) * k <= layer.viewportHeight
    modifies layer, layer.renderer, layer.renderer.data
    ensures layer.Valid() && !layer.rendering && layer.portionId == 0
    ensures layer.samplesPerPixel == old(layer.samplesPerPixel) && layer.maxDepth == old(layer.maxDepth)
    ensures layer.portions == old(layer.portions)
    ensures layer.viewportWidth == old(layer.viewportWidth) && layer.viewportHeight == old(layer.viewportHeight)
    ensures layer.renderer.hasImage
    ensures layer.renderer.data[..] == Image(layer.viewportWidth, layer.viewportHeight, layer.Pixels(shade))
  {
    var n := layer.portions;
    first := [];
    var f := 0;
    while f < n
      invariant 0 <= f <= n
      invariant layer.Valid()
      invariant layer.renderer.data == old(layer.renderer.data) || fresh(layer.renderer.data)
      invariant layer.portions == n && layer.samplesPerPixel == old(layer.samplesPerPixel)
      invariant layer.maxDepth == old(layer.maxDepth)
      invariant layer.viewportWidth == old(layer.viewportWidth) && layer.viewportHeight == old(layer.viewportHeight)
      invariant 0 < f < n ==> layer.rendering && layer.portionId == f
      invariant f == 0 || f == n ==> !layer.rendering
      invariant f > 0 ==> Painted(layer, k, shade, f, first)
    {
      first := CycleFrame(layer, k, shade, f, first);
      f := f + 1;
    }
    assert Cycle(n)[..n] == Cycle(n);
    CycleRendersImage(first, layer.viewportWidth, layer.viewportHeight, n, k, layer.Pixels(shade));
  }

  /**
   * With the default settings, clicking Render and letting three frames pass,
   * with the viewport, the settings and the pixel colours unchanged, leaves
   * the full image in the buffer and the layer idle: the same result as one
   * full Render. The default portion of 1/3 of 375 rows is k = 125.
   */
  method RenderButtonCycle<Scene, Camera>(scene: Scene, camera: Camera, shade: Shade<Scene, Camera>)
    returns (layer: ExampleLayer<Scene, Camera>)
    ensures layer.Valid() && !layer.rendering && layer.portionId == 0
    ensures layer.renderer.data[..] == Image(500, 375, PixelFn(shade, scene, camera, 2, 2, 500, 375))
  {
    layer := new ExampleLayer(scene, camera);
    ghost var first := RenderCycle(layer, 125, shade);
  }
}
