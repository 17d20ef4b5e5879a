# GHD Path Tracer: chunked rendering and the pixel buffer, in Dafny

This project models the part of the GHD Path Tracer's interactive front end
that is integer and array logic: the `Renderer`'s row-major pixel buffer
and the operations that write it (`OnResize`, `Reset`, `Render`,
`PartialRender`), the packing of a pixel's four channel bytes into one
32-bit RGBA word, the structure of the recursive shading function
`ray_color`, and the UI layer's portion stepping that slices one render
into one `PartialRender` call per frame.

The central result is that a cycle of `N` portions, started by the Render
button, takes exactly `N` frames, issues portion ids `0 .. N-1` with only
the last one final, repaints every row of the image exactly once, and leaves
the same buffer as one full `Render` (`Portions.CycleRun`,
`Portions.CycleCoversRowOnce`, `Portions.CycleRendersImage`, and, through
the layer's own frame method from any idle layer, `WalnutApp.RenderCycle`).
The layer keeps the source's invariant that an idle layer is at portion id 0,
so every Render click starts a cycle at portion 0. These results assume that nothing changes during the cycle:
the Portions slider, the viewport size, the row count `k` and the pixel
colours stay fixed, and Reset is not clicked. `OnUIRender` itself states what
a single frame does when any of them does change.

Files, one module each:

- `wrappers.dfy` (`Wrappers`): `Option`.
- `utils.dfy` (`Utils`): `ConvertToRGBA`, the channel extractors, the Reset placeholder word.
- `raster.dfy` (`Raster`): the buffer as a value. `Image(width, height, shade)` is the row-major image, and `Fill` repaints an index range. The loops are specified against these.
- `portions.dfy` (`Portions`): the row range of one portion, the portion state machine `Next`, runs of frames, and the coverage and equivalence lemmas.
- `shading.dfy` (`Shading`): `RayColor`, generic in the ray, hit-record and colour types, with the scene, the material and the colour product as parameters.
- `rendering.dfy` (`Rendering`): the `Renderer` class over an `array<bv32>`.
- `walnut_app.dfy` (`WalnutApp`): the `ExampleLayer` class. It holds the settings, the viewport, the renderer and the portion fields. It also has the wrappers and one UI frame.

The colour of a pixel is what the sampling loop computes for it from jittered camera rays, `ray_color`, averaging, clamping and packing. All of that is floating-point code driven by a random-number generator. In this model it is a deterministic function `shade(scene, camera, spp, maxDepth, width, height, x, y)` of the bound scene and camera, the sampling parameters, the image size (which scales the pixel to viewport coordinates) and the pixel. Render and PartialRender share one per-pixel loop (`Rendering.Renderer.ShadeRows`). This states outright that a partial render writes the same value per pixel as a full one.

The code computes the rows per portion as `static_cast<int>` of a
single-precision product (Renderer.cpp:126-127); the model takes that count
as the integer `k`. The portion progress stays where the code keeps it: in
the UI layer, not in the renderer.

## Model

| member | source | states |
|---|---|---|
| `Utils.ConvertToRGBA` | WalnutApp/src/renderer/Renderer.cpp:5-14 | the packed word holds r in the low byte, g, b, and a in the top byte; shifting and masking with 0xFF gives back each input byte |
| `Utils.ChannelsDetermineWord` | WalnutApp/src/renderer/Renderer.cpp:12 | every 32-bit word is the packing of its own four channels, so the packing is a bijection |
| `Utils.PlaceholderWord` | WalnutApp/src/renderer/Renderer.cpp:116 | the Reset colour (0.1, 0.1, 0.2, 1.0) truncated to bytes 25, 25, 51, 255 is the word 0xFF331919 |
| `Shading.ExhaustedIsBlack` | WalnutApp/src/renderer/Renderer.cpp:26-28 | with depth <= 0 ray_color is black whatever the scene and the ray |
| `Shading.AbsorbedIsBlack` | WalnutApp/src/renderer/Renderer.cpp:30-36 | a ray that hits a surface whose material does not scatter gives black |
| `Shading.Path` | WalnutApp/src/renderer/Renderer.cpp:34-35 | the scatter events ray_color follows number at most depth (none when depth <= 0), so at most depth nested calls occur |
| `Shading.RayColor` | WalnutApp/src/renderer/Renderer.cpp:22-41 | ray_color equals the attenuations along its scatter path, multiplied outermost first into the colour the path ends in: black when the bounces run out or the ray is absorbed, the background when it escapes |
| `Raster.ImageAt` | WalnutApp/src/renderer/Renderer.cpp:81-101 | for every x < width and y < height the index x + y * width is inside the width * height buffer and the full image holds shade(x, y) there |
| `Raster.FillRowsAt` | WalnutApp/src/renderer/Renderer.cpp:133-153 | repainting rows [lo, hi) sets pixel (x, y) to shade(x, y) exactly when lo <= y < hi and keeps every other pixel |
| `Raster.FillAll` | WalnutApp/src/renderer/Renderer.cpp:81-104 | repainting every row yields the full image whatever the buffer held before |
| `Portions.StartRow` | WalnutApp/src/renderer/Renderer.cpp:126 | the start row id * k is never negative for a non-negative id and row count, so converting it to the unsigned loop variable does not wrap (it can still lie past the last row; see `Portions.EmptyPortionKeepsBuffer`) |
| `Portions.EndRow` | WalnutApp/src/renderer/Renderer.cpp:127-130 | the final portion ends at the image height; a non-final portion ends exactly where portion id + 1 starts |
| `Portions.EmptyPortionKeepsBuffer` | WalnutApp/src/renderer/Renderer.cpp:126-133 | a portion whose start row is at or past its end row leaves the buffer exactly as it was, since the row loop does not run |
| `Portions.Next` | WalnutApp/src/WalnutApp.cpp:57-67 | a frame issues a portion iff rendering; the portion has the current id and is final iff id >= portions - 1; rendering continues iff the id was below portions - 1, and the id then moves to id + 1, otherwise back to 0; an idle frame changes nothing |
| `Portions.IdleRun` | WalnutApp/src/WalnutApp.cpp:57 | an idle layer stays idle and issues no portion in any number of frames |
| `Portions.RunWithinCycle` | WalnutApp/src/WalnutApp.cpp:58-61 | from id j, frames issue the non-final ids j, j+1, ... in order while the id stays below portions - 1 |
| `Portions.CycleRun` | WalnutApp/src/WalnutApp.cpp:57-67 | started at id 0, the first n - 1 frames keep rendering; after exactly n frames the layer is idle at id 0, having issued ids 0 .. n-1 with only the last final |
| `Portions.CycleStaysInImage` | WalnutApp/src/renderer/Renderer.cpp:126-130 | given (n - 1) * k <= height, no portion of a cycle covers a row outside [0, height) |
| `Portions.CycleCoversRow` | WalnutApp/src/renderer/Renderer.cpp:126-130 | every row in [0, height) lies in some portion of the cycle: portion y / k, or the final one |
| `Portions.CyclePortionsDisjoint` | WalnutApp/src/renderer/Renderer.cpp:126-130 | a row in an earlier portion of the cycle is in no later portion |
| `Portions.CycleCoversRowOnce` | WalnutApp/src/renderer/Renderer.cpp:126-130 | every row in [0, height) is covered by exactly one portion of the cycle |
| `Portions.CyclePrefixImage` | WalnutApp/src/renderer/Renderer.cpp:126-155 | the first j non-final portions of a cycle together repaint exactly the rows [0, j * k) |
| `Portions.CycleRendersImage` | WalnutApp/src/renderer/Renderer.cpp:122-158 | applying the portions of a full cycle to any buffer yields the same image as one full Render |
| `Rendering.Renderer.constructor` | WalnutApp/src/renderer/Renderer.h:28-33 | a new renderer has no image, an empty buffer and no scene or camera |
| `Rendering.Renderer.OnResize` | WalnutApp/src/renderer/Renderer.cpp:44-61 | when the image already has the requested size the buffer and its contents are unchanged; otherwise a fresh buffer of exactly width * height words |
| `Rendering.Renderer.SetScene` | WalnutApp/src/renderer/Renderer.cpp:63-66 | binds the scene and camera and changes nothing else |
| `Rendering.Renderer.ShadeRows` | WalnutApp/src/renderer/Renderer.cpp:133-155 | the per-pixel loop writes pix(x, y) at x + y * width for the rows [lo, hi) and keeps every other index |
| `Rendering.Renderer.Render` | WalnutApp/src/renderer/Renderer.cpp:68-107 | afterwards the buffer is the full image: every pixel holds its shaded colour |
| `Rendering.Renderer.Reset` | WalnutApp/src/renderer/Renderer.cpp:109-120 | afterwards every index of the buffer holds the placeholder word |
| `Rendering.Renderer.PartialRender` | WalnutApp/src/renderer/Renderer.cpp:122-158 | repaints rows [id * k, (id + 1) * k), or [id * k, height) for the final portion, with the same per-pixel colour as Render; every other pixel keeps its value |
| `WalnutApp.ExampleLayer.constructor` | WalnutApp/src/WalnutApp.cpp:126-137 | the member initialisers' default settings (500 × 375 viewport, 2 samples, depth 2, 3 portions, idle at id 0) and, as the constructor body at WalnutApp.cpp:15-33 does, the renderer bound to the layer's scene and camera |
| `WalnutApp.ExampleLayer.Render` | WalnutApp/src/WalnutApp.cpp:97-106 | resizes the renderer to the viewport first, then the buffer is the full viewport image |
| `WalnutApp.ExampleLayer.Reset` | WalnutApp/src/WalnutApp.cpp:108-113 | resizes the renderer to the viewport first, then every pixel is the placeholder |
| `WalnutApp.ExampleLayer.PartialRender` | WalnutApp/src/WalnutApp.cpp:115-123 | resizes the renderer to the viewport first, keeping the contents when the size did not change, then renders one portion |
| `WalnutApp.ExampleLayer.StepPortion` | WalnutApp/src/WalnutApp.cpp:57-67 | performs the step Next describes, issuing at most one PartialRender and none when idle, and renders exactly the portion it issued |
| `WalnutApp.ExampleLayer.OnUIRender` | WalnutApp/src/WalnutApp.cpp:35-95 | the Render button only sets rendering (no full render); Reset clears before the step; the step is Next on the updated state; the slider values and viewport size are taken at the end of the frame |
| `WalnutApp.CycleFrame` | WalnutApp/src/WalnutApp.cpp:40-72 | frame f of a cycle, with the settings and viewport kept and Reset not clicked, issues portion f: afterwards the first f + 1 portions of the cycle are painted, and the layer is rendering at id f + 1 or, after the last portion, idle |
| `WalnutApp.RenderCycle` | WalnutApp/src/WalnutApp.cpp:40-72 | from any idle layer, a Render click and `portions` frames with unchanged inputs leave the layer idle at id 0, its settings unchanged, and the buffer equal to the full viewport image, the result of one full Render |
| `WalnutApp.RenderButtonCycle` | WalnutApp/src/WalnutApp.cpp:126-137 | with the default settings (3 portions of k = 125 rows) a Render click and three frames leave the layer idle and the buffer equal to the full 500 × 375 image |

## Left out

- Floating-point colour maths is left out: the sky gradient, `unit_vector`, the averaging by `spp`, `glm::clamp` and the float-to-byte casts. The per-pixel colour is the parameter `shade`, and `ConvertToRGBA` takes bytes. The one exception is the Reset colour, which enters as the constant its float channels truncate to.
- The random-number generator is left out: `random_double` and the reseeding with `srand` in the layer's constructor and in every frame. `shade` is deterministic per pixel. In the source, `srand(42)` runs every frame, so each portion restarts the random sequence. A portioned render therefore draws different jitter from one full `Render`. `Portions.CycleRendersImage` states equality with the full render only under the deterministic `shade`.
- Portions.CycleRun, Portions.CycleRendersImage, WalnutApp.RenderCycle, WalnutApp.RenderButtonCycle: these assume the Portions slider, the viewport size and `k` stay fixed for the whole cycle and that Reset is not clicked. The source reads the slider after the step (WalnutApp.cpp:57-72). With 3 portions and 375 rows, frame 1 paints rows [0, 125). If Portions is then dragged to 2, frame 2 issues portion 1 as final and paints rows [187, 375). Rows [125, 187) are not repainted, and the cycle ends after 2 frames. Likewise, with 5 portions the slider dragged to 2 after frame 4 makes frame 5 issue final portion 4, whose start row 4 * 187 = 748 lies past the 375 rows; that frame repaints nothing (`Portions.EmptyPortionKeepsBuffer`). A viewport change mid-cycle reallocates the buffer (Renderer.cpp:59-60) and drops the portions already painted. `OnUIRender` models each such frame as the source does; no cycle-level result is stated for those cases.
- The inner sample loop (`s < spp`) that accumulates `pixel_color` is left out. It runs on float colours and is part of what `shade` stands for.
- `camera::get_ray`, `hittable_list::hit` and material `scatter` are not part of this model; `ray_color` reaches them only through the `World` parameters. The hit interval (0.001, infinity) is fixed inside `hit`.
- `Rendering.Renderer.PartialRender` takes the row count `k` instead of the float `portion`. The rounding of `static_cast<int>(height * portion)` is not modelled. The layer's frame takes `k` with the precondition `(portions - 1) * k <= viewportHeight`, which that rounding meets.
- `Rendering.Renderer.OnResize` requires `width * height < 2^32`. The source computes the buffer size as a 32-bit product; sizes that wrap are not modelled.
- `Rendering.Renderer.PartialRender` takes a non-negative `k` and portion id. The negative values the source's `int` parameters could carry are not modelled; the layer never passes them.
- The display image (`Walnut::Image`, `Resize`, `SetData`, the per-row updates in `Render`) is left out, and so are ImGui widgets, the theme, the timer and the status text. Only the image's width, height and existence are kept.
- The buffer before the first resize is the null pointer; here it is an empty array with `hasImage` false. The contents of a newly allocated buffer are unspecified and no contract depends on them.
- `Rendering.Renderer.Render`, `Rendering.Renderer.PartialRender`: the source dereferences the bound scene and camera; the model requires that `SetScene` has bound them, as the layer's constructor does.
- `src/main.cpp`, `create_image.cpp` and `blender/sphere_exporter.py` are not part of this model: float sphere tests, PPM text output and Blender scene export.
