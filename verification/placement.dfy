/**
 * Where `showTooltip` puts the tooltip: 10 pixels right of and 15 pixels
 * below the mouse, in page coordinates; moved to the other side of the
 * mouse on an axis where it would pass the body's right edge or the
 * viewport's bottom edge; and finally clamped at 0. Coordinates and sizes are
 * CSS pixels, which the browser reports as fractional numbers.
 */
module Placement {

  /**
   * The layout values `showTooltip` reads: the scroll offsets, the size of
   * the tooltip once it is displayed, the right edge of `document.body` in
   * viewport coordinates, and the viewport's height.
   */
  datatype Viewport = Viewport(scrollX: real, scrollY: real, width: real, height: real, bodyRight: real, innerHeight: real)

  /** The `left` and `top` style values, in pixels. */
  datatype Position = Position(left: real, top: real)

  /** `Math.max(0, x)`. */
  function Max0(x: real): (r: real)
    ensures r >= 0.0 && r >= x && (r == x || r == 0.0)
  {
    if x < 0.0 then 0.0 else x
  }

  /** The horizontal coordinate before clamping. */
  function Left(clientX: real, v: Viewport): real
  {
    var left := clientX + v.scrollX + 10.0;
    if left + v.width > v.bodyRight + v.scrollX then clientX + v.scrollX - v.width - 10.0 else left
  }

  /** The vertical coordinate before clamping. */
  function Top(clientY: real, v: Viewport): real
  {
    var top := clientY + v.scrollY + 15.0;
    if top + v.height > v.innerHeight + v.scrollY then clientY + v.scrollY - v.height - 15.0 else top
  }

  /** The position `showTooltip` writes to the tooltip's style: never negative on either axis. */
  function Place(clientX: real, clientY: real, v: Viewport): (p: Position)
    ensures p.left >= 0.0 && p.top >= 0.0
  {
    Position(Max0(Left(clientX, v)), Max0(Top(clientY, v)))
  }

  /**
   * The tooltip goes left of the mouse exactly when, placed right of it, it
   * would pass the body's right edge; whether it does depends on the mouse's
   * viewport position only, not on the scroll offset.
   */
  lemma HorizontalFlip(clientX: real, v: Viewport)
    requires v.width >= 0.0
    ensures Left(clientX, v) == clientX + v.scrollX - v.width - 10.0 <==> clientX + 10.0 + v.width > v.bodyRight
    ensures Left(clientX, v) == clientX + v.scrollX + 10.0 <==> clientX + 10.0 + v.width <= v.bodyRight
  {
  }

  /**
   * The tooltip goes above the mouse exactly when, placed below it, it would
   * pass the bottom of the viewport.
   */
  lemma VerticalFlip(clientY: real, v: Viewport)
    requires v.height >= 0.0
    ensures Top(clientY, v) == clientY + v.scrollY - v.height - 15.0 <==> clientY + 15.0 + v.height > v.innerHeight
    ensures Top(clientY, v) == clientY + v.scrollY + 15.0 <==> clientY + 15.0 + v.height <= v.innerHeight
  {
  }

  /**
   * Placed right of the mouse, the tooltip ends at or before the body's right
   * edge; placed left of it, it ends ten pixels before the mouse.
   */
  lemma HorizontalSide(clientX: real, v: Viewport)
    ensures Left(clientX, v) + v.width <= v.bodyRight + v.scrollX
         || Left(clientX, v) + v.width + 10.0 == clientX + v.scrollX
  {
  }

  /**
   * Placed below the mouse, the tooltip ends at or above the bottom of the
   * viewport; placed above it, it ends fifteen pixels above the mouse.
   */
  lemma VerticalSide(clientY: real, v: Viewport)
    ensures Top(clientY, v) + v.height <= v.innerHeight + v.scrollY
         || Top(clientY, v) + v.height + 15.0 == clientY + v.scrollY
  {
  }

  /** Scrolling moves the unclamped position by the scroll distance and changes no decision. */
  lemma ScrollShift(clientX: real, clientY: real, v: Viewport, dx: real, dy: real)
    ensures Left(clientX, v.(scrollX := v.scrollX + dx)) == Left(clientX, v) + dx
    ensures Top(clientY, v.(scrollY := v.scrollY + dy)) == Top(clientY, v) + dy
  {
  }

  /**
   * The two axes are decided independently: the horizontal coordinate reads
   * only the horizontal inputs and the vertical one only the vertical inputs.
   */
  lemma AxesIndependent(x1: real, y1: real, v1: Viewport, x2: real, y2: real, v2: Viewport)
    ensures x1 == x2 && v1.scrollX == v2.scrollX && v1.width == v2.width && v1.bodyRight == v2.bodyRight
      ==> Place(x1, y1, v1).left == Place(x2, y2, v2).left
    ensures y1 == y2 && v1.scrollY == v2.scrollY && v1.height == v2.height && v1.innerHeight == v2.innerHeight
      ==> Place(x1, y1, v1).top == Place(x2, y2, v2).top
  {
  }

  /**
   * Only the lower bound is enforced: a tooltip wider than the page up to the
   * body's right edge is moved left, clamped at 0, and still passes that edge.
   */
  lemma WideTooltipOverflows(clientX: real, clientY: real, v: Viewport)
    requires clientX >= 0.0 && v.scrollX >= 0.0 && v.width > v.bodyRight + v.scrollX
    ensures Place(clientX, clientY, v).left + v.width > v.bodyRight + v.scrollX
  {
  }

  /** Likewise a tooltip taller than the page down to the viewport's bottom passes that edge. */
  lemma TallTooltipOverflows(clientX: real, clientY: real, v: Viewport)
    requires clientY >= 0.0 && v.scrollY >= 0.0 && v.height > v.innerHeight + v.scrollY
    ensures Place(clientX, clientY, v).top + v.height > v.innerHeight + v.scrollY
  {
  }
}
