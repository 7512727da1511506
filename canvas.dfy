/**
 * The carbon-copy canvas: it draws every glyph on a front sheet, and on a back sheet
 * only the glyphs that do not blink. Showing the two sheets in turn makes the blinking
 * glyphs blink. A sheet is modelled by the list of `draw_glyph` calls it receives.
 */
module Canvas {
  import opened Directions

  /** Glyph number `pos` blinks when the mask says so or the mask is too short for it. */
  predicate IsBlinking(mask: seq<bool>, pos: nat)
  {
    pos >= |mask| || mask[pos]
  }

  /** The calls the back sheet receives of the calls `draws`, the first of which is glyph
   *  number `first`. */
  function Copied<G>(mask: seq<bool>, first: nat, draws: seq<(G, Vec2)>): (r: seq<(G, Vec2)>)
    ensures |r| <= |draws|
    decreases |draws|
  {
    if draws == [] then []
    else (if IsBlinking(mask, first) then [] else [draws[0]]) + Copied(mask, first + 1, draws[1..])
  }

  lemma {:induction false} CopiedAppend<G>(mask: seq<bool>, first: nat, a: seq<(G, Vec2)>, b: seq<(G, Vec2)>)
    ensures Copied(mask, first, a + b) == Copied(mask, first, a) + Copied(mask, first + |a|, b)
    decreases |a|
  {
    if a == [] {
      assert a + b == b;
    } else {
      assert (a + b)[0] == a[0] && (a + b)[1..] == a[1..] + b;
      CopiedAppend(mask, first + 1, a[1..], b);
    }
  }

  /** Without blinking glyphs the back sheet receives every call; when every glyph
   *  blinks (in particular past the end of the mask) it receives none. */
  lemma {:induction false} CopiedExtremes<G>(mask: seq<bool>, first: nat, draws: seq<(G, Vec2)>)
    ensures (forall p: nat | first <= p < first + |draws| :: !IsBlinking(mask, p)) ==> Copied(mask, first, draws) == draws
    ensures (forall p: nat | first <= p < first + |draws| :: IsBlinking(mask, p)) ==> Copied(mask, first, draws) == []
    ensures first >= |mask| ==> Copied(mask, first, draws) == []
    decreases |draws|
  {
    if draws != [] {
      CopiedExtremes(mask, first + 1, draws[1..]);
      assert [draws[0]] + draws[1..] == draws;
    }
  }

  class CarbonCopyCanvas<G> {
    var front: seq<(G, Vec2)>
    var back: seq<(G, Vec2)>
    var glyphPos: nat
    const copyMask: seq<bool>

    /** `CarbonCopyCanvas::new`: no glyph drawn yet. */
    constructor (blinkMask: seq<bool>, frontSheet: seq<(G, Vec2)>, backSheet: seq<(G, Vec2)>)
      ensures front == frontSheet && back == backSheet && glyphPos == 0 && copyMask == blinkMask
    {
      front := frontSheet;
      back := backSheet;
      glyphPos := 0;
      copyMask := blinkMask;
    }

    /** `draw_glyph`: always on the front sheet, on the back sheet unless the glyph
     *  blinks; the glyph counter moves on by one. */
    method DrawGlyph(glyph: G, posXY: Vec2)
      modifies this
      ensures front == old(front) + [(glyph, posXY)]
      ensures back == old(back) + Copied(copyMask, old(glyphPos), [(glyph, posXY)])
      ensures glyphPos == old(glyphPos) + 1
    {
      var isBlinking := if glyphPos >= |copyMask| then true else copyMask[glyphPos];
      front := front + [(glyph, posXY)];
      if !isBlinking {
        back := back + [(glyph, posXY)];
      }
      glyphPos := glyphPos + 1;
    }

    /** `From<CarbonCopyCanvas> for [I; 2]`: the front sheet, then the back sheet. */
    function IntoSheets(): (sheets: seq<seq<(G, Vec2)>>)
      reads this
      ensures |sheets| == 2 && sheets[0] == front && sheets[1] == back
    {
      [front, back]
    }
  }
}
