/**
 * The structure of the renderer's recursive shading function ray_color.
 * The geometry, the materials and the colour arithmetic are floating-point
 * code outside this model; they enter as the fields of a World, so only
 * the recursion itself is modelled: the depth cut-off, absorption, the
 * escape to the background, and the attenuated recursion on depth - 1.
 */
module Shading {
  import opened Wrappers

  /** A material's successful scatter: the attenuation colour and the scattered ray. */
  datatype Scatter<C, R> = Scatter(attenuation: C, scattered: R)

  /**
   * What ray_color consults. `hit` is the scene's nearest-hit query over
   * (0.001, infinity), `scatter` the hit material's scatter, `sky` the
   * background gradient for a ray that escapes, `black` the colour (0, 0, 0)
   * and `mul` the per-channel product of two colours.
   */
  datatype World<!R, !H, !C> = World(
    hit: R -> Option<H>,
    scatter: (R, H) -> Option<Scatter<C, R>>,
    sky: R -> C,
    black: C,
    mul: (C, C) -> C)

  /**
   * The colour gathered along ray r with `depth` bounces left: the product of
   * the attenuations met along its scatter path, outermost first, with the
   * colour the path ends in.
   */
  function RayColor<R, H, C>(w: World<R, H, C>, r: R, depth: int): (c: C)
    ensures c == Attenuate(w.mul, Path(w, r, depth), Terminal(w, r, depth))
    decreases depth
  {
    if depth <= 0 then w.black
    else match w.hit(r)
      case None => w.sky(r)
      case Some(rec) =>
        match w.scatter(r, rec)
        case None => w.black
        case Some(s) =>
          var rest := Path(w, s.scattered, depth - 1);
          assert Path(w, r, depth) == [s] + rest;
          assert ([s] + rest)[1..] == rest;
          assert LastRay(r, [s] + rest) == LastRay(s.scattered, rest);
          w.mul(s.attenuation, RayColor(w, s.scattered, depth - 1))
  }

  /**
   * With no bounces left the result is black whatever the scene holds:
   * two worlds that agree only on black give the same colour.
   */
  lemma ExhaustedIsBlack<R, H, C>(w: World<R, H, C>, w': World<R, H, C>, r: R, r': R, depth: int)
    requires depth <= 0 && w.black == w'.black
    ensures RayColor(w, r, depth) == w.black == RayColor(w', r', depth)
  {
  }

  /** A ray that hits a surface whose material does not scatter is absorbed: black. */
  lemma AbsorbedIsBlack<R, H, C>(w: World<R, H, C>, r: R, depth: int)
    requires depth > 0 && w.hit(r).Some? && w.scatter(r, w.hit(r).value).None?
    ensures RayColor(w, r, depth) == w.black
  {
  }

  /**
   * The scatter events ray_color follows from r, in order: each one's
   * scattered ray is the next ray traced. There are at most `depth` of them,
   * which is the number of nested recursive calls.
   */
  function Path<R, H, C>(w: World<R, H, C>, r: R, depth: int): (p: seq<Scatter<C, R>>)
    ensures |p| <= if depth <= 0 then 0 else depth
    decreases depth
  {
    if depth <= 0 then []
    else match w.hit(r)
      case None => []
      case Some(rec) =>
        match w.scatter(r, rec)
        case None => []
        case Some(s) => [s] + Path(w, s.scattered, depth - 1)
  }

  /** The ray traced after the scatter events p, starting from r. */
  function LastRay<R, C>(r: R, p: seq<Scatter<C, R>>): R
  {
    if p == [] then r else p[|p| - 1].scattered
  }

  /**
   * What the path ends in, read off the last ray alone: black when the
   * bounces ran out or the last surface absorbed the ray, the background
   * when the last ray escaped.
   */
  function Terminal<R, H, C>(w: World<R, H, C>, r: R, depth: int): C
  {
    var p := Path(w, r, depth);
    var last := LastRay(r, p);
    if depth - |p| <= 0 then w.black
    else if w.hit(last).None? then w.sky(last)
    else w.black
  }

  /** The attenuations of a path applied, outermost first, to the colour it ends in. */
  function Attenuate<R, C>(mul: (C, C) -> C, p: seq<Scatter<C, R>>, end: C): C
    decreases |p|
  {
    if p == [] then end else mul(p[0].attenuation, Attenuate(mul, p[1..], end))
  }
}
