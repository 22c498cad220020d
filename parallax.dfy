/** The parallax scroll handler of the landing page.

    On every scroll event each `.parallax` section is tested against the
    viewport; only a section that passes the test gets new styles: its
    background is shifted up by half the distance scrolled past its top,
    and its `i`-th `.parallax-layer` is translated by that distance times
    `(i + 1) * 0.2`.  Positions are whole pixels here and the offsets are
    Dafny reals, an idealisation of the page's floating-point numbers. */
module Parallax {

  const SpeedFactor: real := 0.5
  const LayerStep: real := 0.2

  /** A parallax section: its static geometry (`offsetTop`,
      `offsetHeight`) and the styles the handler writes (the background's
      vertical position and one vertical translation per layer). */
  datatype Section = Section(top: int, height: int, backgroundY: real, layerY: seq<real>)

  /** Pixel row `y` lies in the band of `len` rows starting at `lo`. */
  predicate Covers(lo: int, len: int, y: int)
  {
    lo <= y < lo + len
  }

  /** The handler's test: the section is in or near the viewport.  As a
      condition on the scroll position alone, it holds exactly on the open
      range from `top - innerHeight` to `top + height`. */
  predicate InView(scroll: int, innerHeight: int, top: int, height: int): (b: bool)
    ensures b <==> top - innerHeight < scroll < top + height
  {
    scroll + innerHeight > top && scroll < top + height
  }

  /** For a viewport and a section of positive height, the test holds
      exactly when some pixel row lies both in the viewport and in the
      section. */
  lemma InViewIffOverlap(scroll: int, innerHeight: int, top: int, height: int)
    requires innerHeight > 0 && height > 0
    ensures InView(scroll, innerHeight, top, height) <==>
              exists y :: Covers(scroll, innerHeight, y) && Covers(top, height, y)
  {
    if InView(scroll, innerHeight, top, height) {
      var y := if scroll < top then top else scroll;
      assert Covers(scroll, innerHeight, y) && Covers(top, height, y);
    }
  }

  /** The test is "in or near": a section of height 0 whose top lies
      strictly inside the viewport passes it, though it shares no pixel row
      with the viewport. */
  lemma ZeroHeightNearView(scroll: int, innerHeight: int, top: int)
    requires scroll < top < scroll + innerHeight
    ensures InView(scroll, innerHeight, top, 0)
    ensures !exists y :: Covers(scroll, innerHeight, y) && Covers(top, 0, y)
  {
  }

  /** How far the viewport has scrolled past the section's top, scaled by
      the speed factor. */
  function ScrollOffset(scroll: int, top: int): (r: real)
    ensures r > 0.0 <==> scroll > top
    ensures r == 0.0 <==> scroll == top
  {
    (scroll - top) as real * SpeedFactor
  }

  /** The speed of the layer at `index` among the section's layers: every
      layer moves at least at the step speed. */
  function LayerSpeed(index: nat): (r: real)
    ensures LayerStep <= r
  {
    (index + 1) as real * LayerStep
  }

  /** Each layer moves one step faster than the layer before it. */
  lemma DeeperLayerOneStepFaster(index: nat)
    requires index > 0
    ensures LayerSpeed(index) == LayerSpeed(index - 1) + LayerStep
  {
  }

  /** The section after the handler has run for scroll position `scroll`
      and viewport height `innerHeight`. */
  function Scrolled(s: Section, scroll: int, innerHeight: int): (r: Section)
    ensures r.top == s.top && r.height == s.height && |r.layerY| == |s.layerY|
    ensures !InView(scroll, innerHeight, s.top, s.height) ==> r == s
    ensures InView(scroll, innerHeight, s.top, s.height) ==>
              r.backgroundY == -ScrollOffset(scroll, s.top) &&
              forall k :: 0 <= k < |r.layerY| ==> r.layerY[k] == ScrollOffset(scroll, s.top) * LayerSpeed(k)
  {
    if InView(scroll, innerHeight, s.top, s.height) then
      var yPos := ScrollOffset(scroll, s.top);
      s.(backgroundY := -yPos,
         layerY := seq(|s.layerY|, k requires 0 <= k < |s.layerY| => yPos * LayerSpeed(k)))
    else s
  }

  /** Within the viewport test, the background moves linearly with the
      scroll position, at minus the speed factor. */
  lemma BackgroundSlope(s: Section, s1: int, s2: int, innerHeight: int)
    requires InView(s1, innerHeight, s.top, s.height) && InView(s2, innerHeight, s.top, s.height)
    ensures Scrolled(s, s2, innerHeight).backgroundY - Scrolled(s, s1, innerHeight).backgroundY
              == -(s2 - s1) as real * SpeedFactor
  {
  }

  /** Within the viewport test, layer `k` moves linearly with the scroll
      position, with slope `0.5 * (k + 1) * 0.2`. */
  lemma LayerSlope(s: Section, s1: int, s2: int, innerHeight: int, k: nat)
    requires InView(s1, innerHeight, s.top, s.height) && InView(s2, innerHeight, s.top, s.height)
    requires k < |s.layerY|
    ensures Scrolled(s, s2, innerHeight).layerY[k] - Scrolled(s, s1, innerHeight).layerY[k]
              == (s2 - s1) as real * (SpeedFactor * LayerSpeed(k))
  {
  }

  /** The inner loop of the handler: the translation of each layer, given
      the section's offset `yPos`. */
  method StyleLayers(layers: seq<real>, yPos: real) returns (r: seq<real>)
    ensures |r| == |layers|
    ensures forall k :: 0 <= k < |r| ==> r[k] == yPos * LayerSpeed(k)
  {
    r := layers;
    for index := 0 to |layers|
      invariant |r| == |layers|
      invariant forall k :: 0 <= k < index ==> r[k] == yPos * LayerSpeed(k)
    {
      r := r[index := yPos * LayerSpeed(index)];
    }
  }

  /** The scroll handler: styles are written for exactly the sections that
      pass the viewport test; the others are left as they were. */
  method OnScroll(sections: array<Section>, scroll: int, innerHeight: int)
    modifies sections
    ensures forall k :: 0 <= k < sections.Length ==>
              sections[k] == Scrolled(old(sections[k]), scroll, innerHeight)
  {
    for i := 0 to sections.Length
      invariant forall k :: 0 <= k < i ==> sections[k] == Scrolled(old(sections[k]), scroll, innerHeight)
      invariant forall k :: i <= k < sections.Length ==> sections[k] == old(sections[k])
    {
      var section := sections[i];
      if InView(scroll, innerHeight, section.top, section.height) {
        var yPos := ScrollOffset(scroll, section.top);
        var layers := StyleLayers(section.layerY, yPos);
        ghost var styled := Scrolled(section, scroll, innerHeight);
        assert forall k :: 0 <= k < |layers| ==> layers[k] == styled.layerY[k];
        assert layers == styled.layerY;
        sections[i] := section.(backgroundY := -yPos, layerY := layers);
      }
    }
  }
}
