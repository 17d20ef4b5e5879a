/**
 * The Renderer object of Renderer.cpp / Renderer.h: it owns the row-major
 * pixel buffer, binds the scene and camera it renders, and repaints the
 * whole buffer (Render), a range of rows (PartialRender), or clears it to
 * a placeholder colour (Reset).
 *
 * The colour of one pixel is what the sampling loop computes for it: the
 * average of `spp` jittered camera rays shaded by ray_color with `maxDepth`
 * bounces, clamped and packed. That is floating-point code driven by a
 * random-number generator; here it is the deterministic function `shade`
 * of the bound scene and camera, the sampling parameters, the image size
 * and the pixel.
 */
module Rendering {
  import opened Wrappers
  import opened Utils
  import opened Raster
  import opened Portions

  /**
   * The colour the sampling loop gives pixel (x, y) for a scene, a camera,
   * spp, maxDepth and the image's width and height (which scale the pixel
   * to the camera's viewport coordinates).
   */
  type Shade<!Scene, !Camera> = (Scene, Camera, int, int, nat, nat, nat, nat) -> bv32

  /** The per-pixel colour source one render call paints with. */
  function PixelFn<Scene, Camera>(shade: Shade<Scene, Camera>, scene: Scene, camera: Camera, spp: int, maxDepth: int,
                                  width: nat, height: nat): Shader
  {
    (x: nat, y: nat) => shade(scene, camera, spp, maxDepth, width, height, x, y)
  }

  /** The colour source that paints every pixel the same word. */
  function Uniform(word: bv32): Shader
  {
    (x: nat, y: nat) => word
  }

  class Renderer<Scene, Camera> {
    /** Whether the display image exists yet (m_FinalImage is set). */
    var hasImage: bool
    /** The image's dimensions; meaningful once hasImage holds. */
    var width: nat
    var height: nat
    /** m_ImageData: width * height packed pixels, row by row. Empty before the first resize. */
    var data: array<bv32>
    /** The scene and camera bound by SetScene. */
    var activeScene: Option<Scene>
    var activeCamera: Option<Camera>

    ghost predicate Valid()
      reads this
    {
      hasImage ==> data.Length == width * height
    }

    /** A renderer with no image, no buffer and nothing bound. */
    constructor ()
      ensures Valid() && !hasImage && fresh(data) && data.Length == 0
      ensures activeScene == None && activeCamera == None
    {
      hasImage := false;
      width, height := 0, 0;
      data := new bv32[0];
      activeScene, activeCamera := None, None;
    }

    /**
     * Makes the image and the buffer width × height. When the image already
     * has those dimensions nothing happens and the buffer keeps its contents;
     * otherwise a new buffer of width * height words replaces the old one,
     * its contents unspecified.
     */
    method OnResize(w: nat, h: nat)
      requires Valid()
      requires w * h < 0x1_0000_0000
      modifies this
      ensures Valid() && hasImage && width == w && height == h
      ensures data.Length == w * h
      ensures activeScene == old(activeScene) && activeCamera == old(activeCamera)
      ensures old(hasImage) && old(width) == w && old(height) == h ==> data == old(data) && data[..] == old(data[..])
      ensures !(old(hasImage) && old(width) == w && old(height) == h) ==> fresh(data)
    {
      if hasImage && width == w && height == h {
        return;
      }
      hasImage, width, height := true, w, h;
      data := new bv32[w * h];
    }

    /** Binds the scene and camera later renders read. */
    method SetScene(scene: Scene, camera: Camera)
      modifies this
      ensures activeScene == Some(scene) && activeCamera == Some(camera)
      ensures hasImage == old(hasImage) && width == old(width) && height == old(height) && data == old(data)
    {
      activeScene := Some(scene);
      activeCamera := Some(camera);
    }

    /**
     * The shared per-pixel loop of Render and PartialRender: for each row
     * y in [lo, hi) and each column x, writes pix(x, y) at index x + y * width.
     */
    method ShadeRows(lo: nat, hi: nat, pix: Shader)
      requires Valid() && hasImage && hi <= height
      modifies data
      ensures data[..] == Fill(old(data[..]), width, lo * width, hi * width, pix)
    {
      FillEmpty(data[..], width, lo * width, lo * width, pix);
      var y := lo;
      while y < hi
        invariant lo <= y && (y <= hi || y == lo)
        invariant data[..] == Fill(old(data[..]), width, lo * width, y * width, pix)
      {
        MulMono(lo, y, width);
        var x := 0;
        while x < width
          invariant 0 <= x <= width
          invariant data[..] == Fill(old(data[..]), width, lo * width, y * width + x, pix)
        {
          IndexInRange(x, y, width, height);
          RowMajor(x, y, width);
          FillStep(old(data[..]), width, lo * width, y * width + x, pix);
          data[x + y * width] := pix(x, y);
          x := x + 1;
        }
        assert y * width + width == (y + 1) * width;
        y := y + 1;
      }
      if y != hi {
        MulMono(hi, lo, width);
        FillEmpty(old(data[..]), width, lo * width, hi * width, pix);
      }
    }

    /** Repaints every pixel: afterwards pixel (x, y) holds its shaded colour. */
    method Render(spp: int, maxDepth: int, shade: Shade<Scene, Camera>)
      requires Valid() && hasImage && activeScene.Some? && activeCamera.Some?
      modifies data
      ensures data[..] == Image(width, height, PixelFn(shade, activeScene.value, activeCamera.value, spp, maxDepth, width, height))
    {
      var pix := PixelFn(shade, activeScene.value, activeCamera.value, spp, maxDepth, width, height);
      ShadeRows(0, height, pix);
      FillAll(old(data[..]), width, height, pix);
    }

    /** Paints every pixel with the placeholder colour. */
    method Reset()
      requires Valid() && hasImage
      modifies data
      ensures forall i :: 0 <= i < data.Length ==> data[i] == Placeholder
    {
      ShadeRows(0, height, Uniform(Placeholder));
      FillAll(old(data[..]), width, height, Uniform(Placeholder));
      assert data[..] == Image(width, height, Uniform(Placeholder));
    }

    /**
     * Repaints the rows [StartRow(portionId, k), EndRow(portionId, k, finalPortion, height))
     * and keeps every other pixel. `k` is the number of rows per portion. A
     * non-final portion must end inside the image; a final one always ends at
     * the bottom row.
     */
    method PartialRender(k: nat, portionId: nat, finalPortion: bool, spp: int, maxDepth: int, shade: Shade<Scene, Camera>)
      requires Valid() && hasImage && activeScene.Some? && activeCamera.Some?
      requires finalPortion || (portionId + 1) * k <= height
      modifies data
      ensures data[..] == PortionImage(old(data[..]), width, height, k, Portion(portionId, finalPortion),
                                       PixelFn(shade, activeScene.value, activeCamera.value, spp, maxDepth, width, height))
    {
      var startRow := portionId * k;
      var endRow := (portionId + 1) * k;
      if finalPortion {
        endRow := height;
      }
      ShadeRows(startRow, endRow, PixelFn(shade, activeScene.value, activeCamera.value, spp, maxDepth, width, height));
    }
  }
}
