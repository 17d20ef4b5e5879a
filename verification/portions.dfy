/**
 * Chunked ("partial") rendering: the row range one PartialRender call
 * repaints, the per-frame portion stepping of the UI layer, and the fact
 * that one full cycle of portions paints the whole image.
 *
 * `k` is the number of rows per chunk, the integer the renderer derives
 * from the image height and the portion fraction.
 */
module Portions {
  import opened Wrappers
  import opened Raster

  /** One PartialRender request: the portion id and whether it is the last of its cycle. */
  datatype Portion = Portion(id: int, final: bool)

  /** The first row a portion repaints; never negative for a non-negative id and row count. */
  function StartRow(id: int, k: int): (row: int)
    ensures 0 <= id && 0 <= k ==> 0 <= row
  {
    id * k
  }

  /**
   * One past the last row a portion repaints. The final portion runs to the
   * bottom of the image; a non-final one ends where the next portion starts.
   */
  function EndRow(id: int, k: int, final: bool, height: int): (row: int)
    ensures final ==> row == height
    ensures !final ==> row == StartRow(id + 1, k)
  {
    if final then height else (id + 1) * k
  }

  /**
   * A portion whose start row is at or past its end row repaints nothing: the
   * row loop does not run. This happens to a final portion issued with an id
   * left over from a larger portion count, after the count was lowered
   * mid-cycle.
   */
  lemma EmptyPortionKeepsBuffer(buf: seq<bv32>, width: nat, height: nat, k: int, p: Portion, shade: Shader)
    requires width > 0 || |buf| == 0
    requires StartRow(p.id, k) >= EndRow(p.id, k, p.final, height)
    ensures PortionImage(buf, width, height, k, p, shade) == buf
  {
    MulMono(EndRow(p.id, k, p.final, height), StartRow(p.id, k), width);
  }

  /** Whether row y lies in the row range of portion p. */
  predicate Covers(p: Portion, k: int, height: int, y: int)
  {
    StartRow(p.id, k) <= y < EndRow(p.id, k, p.final, height)
  }

  /** The buffer after one PartialRender of portion p: its rows repainted, the rest kept. */
  function PortionImage(buf: seq<bv32>, width: nat, height: nat, k: int, p: Portion, shade: Shader): seq<bv32>
    requires width > 0 || |buf| == 0
  {
    Fill(buf, width, StartRow(p.id, k) * width, EndRow(p.id, k, p.final, height) * width, shade)
  }

  /** The UI layer's portion state: portion count, next portion id, and whether a cycle is running. */
  datatype Sequencer = Sequencer(portions: int, portionId: int, rendering: bool)

  /**
   * One UI frame: while rendering, issue the current portion, non-final and
   * advancing the id while the id is below portions - 1, otherwise final,
   * returning to id 0 and to idle. An idle frame issues nothing.
   */
  function Next(s: Sequencer): (r: (Sequencer, Option<Portion>))
    ensures r.0.portions == s.portions
    ensures r.1.Some? <==> s.rendering
    ensures r.1.Some? ==> r.1.value.id == s.portionId
    ensures r.1.Some? ==> (r.1.value.final <==> s.portionId >= s.portions - 1)
    ensures !s.rendering ==> r.0 == s
    ensures r.0.rendering <==> s.rendering && s.portionId < s.portions - 1
    ensures s.rendering ==> r.0.portionId == if r.0.rendering then s.portionId + 1 else 0
  {
    if !s.rendering then (s, None)
    else if s.portionId < s.portions - 1 then
      (s.(portionId := s.portionId + 1), Some(Portion(s.portionId, false)))
    else
      (s.(portionId := 0, rendering := false), Some(Portion(s.portionId, true)))
  }

  /** The state after `frames` frames and the portions issued, in order. */
  function Run(s: Sequencer, frames: nat): (Sequencer, seq<Portion>)
    decreases frames
  {
    if frames == 0 then (s, [])
    else
      var step := Next(s);
      var rest := Run(step.0, frames - 1);
      (rest.0, Issued(step.1) + rest.1)
  }

  /** The portions a frame issued, as a list of zero or one. */
  function Issued(o: Option<Portion>): seq<Portion>
  {
    if o.Some? then [o.value] else []
  }

  /** The portions of one cycle of n: ids 0 .. n-1, only the last marked final. */
  function Cycle(n: nat): seq<Portion>
  {
    seq(n, i => Portion(i, i == n - 1))
  }

  /** An idle sequencer stays idle and issues nothing. */
  lemma {:induction false} IdleRun(s: Sequencer, frames: nat)
    requires !s.rendering
    ensures Run(s, frames).0 == s && Run(s, frames).1 == []
    decreases frames
  {
    if frames > 0 {
      IdleRun(s, frames - 1);
    }
  }

  /** From id j, while the cycle is unfinished, f frames issue the non-final portions j .. j+f-1. */
  lemma {:induction false} RunWithinCycle(n: int, j: int, f: nat)
    requires 0 <= j && j + f <= n - 1
    ensures Run(Sequencer(n, j, true), f).0 == Sequencer(n, j + f, true)
    ensures Run(Sequencer(n, j, true), f).1 == Cycle(n)[j..j + f]
    decreases f
  {
    if f > 0 {
      RunWithinCycle(n, j + 1, f - 1);
      assert Cycle(n)[j..j + f] == [Portion(j, false)] + Cycle(n)[j + 1..j + f];
    }
  }

  /** f + 1 frames are f frames followed by one more. */
  lemma {:induction false} RunAfter(s: Sequencer, f: nat)
    ensures Run(s, f + 1).0 == Next(Run(s, f).0).0
    ensures Run(s, f + 1).1 == Run(s, f).1 + Issued(Next(Run(s, f).0).1)
    decreases f
  {
    if f > 0 {
      RunAfter(Next(s).0, f - 1);
    }
  }

  /**
   * Started at id 0, a cycle of n portions takes exactly n frames: the first
   * n - 1 frames leave it rendering, and after the n-th it is idle again at id 0,
   * having issued ids 0 .. n-1 in order with only the last one final.
   */
  lemma CycleRun(n: int, f: nat)
    requires n >= 1 && f <= n
    ensures f < n ==> Run(Sequencer(n, 0, true), f).0 == Sequencer(n, f, true)
    ensures f < n ==> Run(Sequencer(n, 0, true), f).1 == Cycle(n)[..f]
    ensures f == n ==> Run(Sequencer(n, 0, true), f).0 == Sequencer(n, 0, false)
    ensures f == n ==> Run(Sequencer(n, 0, true), f).1 == Cycle(n)
  {
    if f < n {
      RunWithinCycle(n, 0, f);
    } else {
      RunWithinCycle(n, 0, n - 1);
      RunAfter(Sequencer(n, 0, true), n - 1);
      assert Cycle(n) == Cycle(n)[..n - 1] + [Portion(n - 1, true)];
    }
  }

  /** With (n - 1) * k rows fitting in the image, no portion of the cycle reaches outside [0, height). */
  lemma CycleStaysInImage(n: int, k: int, height: int, i: int, y: int)
    requires n >= 1 && k >= 0 && (n - 1) * k <= height
    requires 0 <= i < n && Covers(Cycle(n)[i], k, height, y)
    ensures 0 <= y < height
  {
    MulMono(0, i, k);
    if i < n - 1 {
      MulMono(i + 1, n - 1, k);
    }
  }

  /** Some portion of a cycle covers each row of the image: row y lies in portion y / k, or in the final one. */
  lemma CycleCoversRow(n: int, k: int, height: int, y: int) returns (c: int)
    requires n >= 1 && k >= 0 && 0 <= y < height
    ensures 0 <= c < n && Covers(Cycle(n)[c], k, height, y)
  {
    if k == 0 {
      c := n - 1;
    } else if y / k >= n - 1 {
      c := n - 1;
      MulMono(n - 1, y / k, k);
      assert (y / k) * k <= y;
    } else {
      c := y / k;
      assert y == c * k + y % k && 0 <= y % k < k;
      assert c * k <= y < (c + 1) * k;
    }
  }

  /** Portions of a cycle are disjoint: an earlier portion ends where a later one may start. */
  lemma CyclePortionsDisjoint(n: int, k: int, height: int, i: int, j: int, y: int)
    requires k >= 0 && 0 <= i < j < n
    requires Covers(Cycle(n)[i], k, height, y)
    ensures !Covers(Cycle(n)[j], k, height, y)
  {
    assert Cycle(n)[i] == Portion(i, false);
    MulMono(i + 1, j, k);
  }

  /** Every row of the image is repainted by exactly one portion of a cycle. */
  lemma CycleCoversRowOnce(n: int, k: int, height: int, y: int)
    requires n >= 1 && k >= 0 && 0 <= y < height
    ensures exists i :: 0 <= i < n && Covers(Cycle(n)[i], k, height, y)
    ensures forall i, j ::
              0 <= i < n && 0 <= j < n && Covers(Cycle(n)[i], k, height, y) && Covers(Cycle(n)[j], k, height, y)
              ==> i == j
  {
    var c := CycleCoversRow(n, k, height, y);
    forall i, j | 0 <= i < n && 0 <= j < n && Covers(Cycle(n)[i], k, height, y)
                  && Covers(Cycle(n)[j], k, height, y)
      ensures i == j
    {
      if i < j {
        CyclePortionsDisjoint(n, k, height, i, j, y);
      } else if j < i {
        CyclePortionsDisjoint(n, k, height, j, i, y);
      }
    }
  }

  /** The buffer after the portions ps, applied in order. */
  function ApplyPortions(buf: seq<bv32>, width: nat, height: nat, k: int, ps: seq<Portion>, shade: Shader): (r: seq<bv32>)
    requires width > 0 || |buf| == 0
    ensures |r| == |buf|
    decreases |ps|
  {
    if ps == [] then buf
    else PortionImage(ApplyPortions(buf, width, height, k, ps[..|ps| - 1], shade), width, height, k, ps[|ps| - 1], shade)
  }

  /** The first j non-final portions of a cycle repaint exactly the rows [0, j * k). */
  lemma {:induction false} CyclePrefixImage(buf: seq<bv32>, width: nat, height: nat, n: int, k: int, j: nat, shade: Shader)
    requires |buf| == width * height
    requires n >= 1 && k >= 0 && j <= n - 1
    ensures ApplyPortions(buf, width, height, k, Cycle(n)[..j], shade) == Fill(buf, width, 0, j * k * width, shade)
  {
    if j == 0 {
      FillEmpty(buf, width, 0, 0, shade);
    } else {
      CyclePrefixImage(buf, width, height, n, k, j - 1, shade);
      assert Cycle(n)[..j][..j - 1] == Cycle(n)[..j - 1];
      MulMono(0, (j - 1) * k, width);
      MulMono((j - 1) * k, j * k, width);
      FillThenFill(buf, width, 0, (j - 1) * k * width, j * k * width, shade);
    }
  }

  /**
   * A full cycle of n portions, applied to any buffer, yields the same image as
   * one full Render: every pixel (x, y) ends up as shade(x, y).
   */
  lemma CycleRendersImage(buf: seq<bv32>, width: nat, height: nat, n: int, k: int, shade: Shader)
    requires |buf| == width * height
    requires n >= 1 && k >= 0 && (n - 1) * k <= height
    ensures ApplyPortions(buf, width, height, k, Cycle(n), shade) == Image(width, height, shade)
  {
    CyclePrefixImage(buf, width, height, n, k, n - 1, shade);
    assert Cycle(n)[..n][..n - 1] == Cycle(n)[..n - 1];
    assert Cycle(n)[..n] == Cycle(n);
    MulMono(0, (n - 1) * k, width);
    MulMono((n - 1) * k, height, width);
    FillThenFill(buf, width, 0, (n - 1) * k * width, height * width, shade);
    FillAll(buf, width, height, shade);
  }
}
