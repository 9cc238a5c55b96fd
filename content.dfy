/** The content script's region selection: an overlay and a selection box
    appear when a capture starts; mouse down, move and up draw the box; a
    right click cancels. DOM nodes are reduced to whether they exist and
    the box's geometry and visibility; coordinates are integers. */
module Selection {
  import opened Wrappers

  /** A rectangle in viewport pixels, as the box's left/top/width/height. */
  datatype Rect = Rect(left: int, top: int, width: int, height: int)

  /** The selection box: its geometry (`None` until a mouse-down positions
      it, when its style properties are still unset) and whether it is
      displayed. */
  datatype SelectionBox = SelectionBox(geometry: Option<Rect>, visible: bool)

  /** What `handleMouseUp` does: nothing without a box; otherwise it
      captures the box's rectangle (`None` when the box was never
      positioned) and asks for a screenshot. */
  datatype MouseUp = Ignored | Captured(rect: Option<Rect>)

  const CancelMessage: string := "Capture cancelled"

  function Min(a: int, b: int): int { if a <= b then a else b }
  function Abs(a: int): int { if a < 0 then -a else a }

  /** The box spanned by a drag from the start point to the current point:
      its corners are exactly the two x values and the two y values, so both
      points lie on the box whatever way the drag went. */
  function DragRect(startX: int, startY: int, currentX: int, currentY: int): (r: Rect)
    ensures r.width >= 0 && r.height >= 0
    ensures {r.left, r.left + r.width} == {startX, currentX}
    ensures {r.top, r.top + r.height} == {startY, currentY}
  {
    Rect(Min(startX, currentX), Min(startY, currentY), Abs(currentX - startX), Abs(currentY - startY))
  }

  /** The box is the same whichever way the drag went. */
  lemma DragDirectionIrrelevant(startX: int, startY: int, currentX: int, currentY: int)
    ensures DragRect(startX, startY, currentX, currentY) == DragRect(currentX, currentY, startX, startY)
  {
  }

  /** The module-level state of the content script. */
  class SelectionController {
    var isSelecting: bool
    var hasOverlay: bool
    var box: Option<SelectionBox>
    var startX: int
    var startY: int

    /** The overlay and the box exist together, exactly while selecting,
        and a displayed box has been positioned. */
    ghost predicate Valid()
      reads this
    {
      (isSelecting <==> hasOverlay) && (hasOverlay <==> box.Some?) &&
      (box.Some? && box.value.visible ==> box.value.geometry.Some?)
    }

    constructor ()
      ensures Valid() && !isSelecting && !hasOverlay && box == None && startX == 0 && startY == 0
    {
      isSelecting, hasOverlay, box, startX, startY := false, false, None, 0, 0;
    }

    /** `startScreenCapture`: a no-op while selecting; otherwise the overlay
        and a hidden, unpositioned box appear. */
    method StartScreenCapture()
      requires Valid()
      modifies this`isSelecting, this`hasOverlay, this`box
      ensures Valid() && isSelecting
      ensures old(isSelecting) ==> hasOverlay == old(hasOverlay) && box == old(box)
      ensures !old(isSelecting) ==> hasOverlay && box == Some(SelectionBox(None, false))
    {
      if isSelecting {
        return;
      }
      isSelecting := true;
      hasOverlay := true;
      box := Some(SelectionBox(None, false));
    }

    /** `handleMouseDown`: records the start point and, when there is a
        box, shows it at that point with zero width and height. */
    method HandleMouseDown(x: int, y: int)
      requires Valid()
      modifies this`startX, this`startY, this`box
      ensures Valid()
      ensures startX == x && startY == y
      ensures old(box).Some? ==> box == Some(SelectionBox(Some(Rect(x, y, 0, 0)), true))
      ensures old(box).None? ==> box == None
    {
      startX, startY := x, y;
      if box.Some? {
        box := Some(SelectionBox(Some(Rect(x, y, 0, 0)), true));
      }
    }

    /** `handleMouseMove`: nothing without a box or while it is hidden;
        otherwise the box spans the start point and the current point. */
    method HandleMouseMove(x: int, y: int)
      requires Valid()
      modifies this`box
      ensures Valid()
      ensures old(box).None? || !old(box).value.visible ==> box == old(box)
      ensures old(box).Some? && old(box).value.visible ==> box == Some(SelectionBox(Some(DragRect(startX, startY, x, y)), true))
    {
      if box.None? || !box.value.visible {
        return;
      }
      box := Some(SelectionBox(Some(DragRect(startX, startY, x, y)), true));
    }

    /** `cleanup`: no longer selecting, overlay and box removed. */
    method Cleanup()
      modifies this`isSelecting, this`hasOverlay, this`box
      ensures Valid() && !isSelecting && !hasOverlay && box == None
    {
      isSelecting := false;
      hasOverlay := false;
      box := None;
    }

    /** `handleMouseUp`: nothing without a box; otherwise the rectangle is
        read from the box before `cleanup` removes it. */
    method HandleMouseUp() returns (effect: MouseUp)
      requires Valid()
      modifies this`isSelecting, this`hasOverlay, this`box
      ensures Valid()
      ensures old(box).None? ==> effect == Ignored && box == None && isSelecting == old(isSelecting)
      ensures old(box).Some? ==> effect == Captured(old(box).value.geometry) && !isSelecting && !hasOverlay && box == None
      ensures old(box).Some? && old(box).value.visible ==> effect.rect.Some?
    {
      if box.None? {
        return Ignored;
      }
      effect := Captured(box.value.geometry);
      Cleanup();
    }

    /** `cancelSelection`: cleans up and reports the cancellation error. */
    method CancelSelection() returns (error: string)
      modifies this`isSelecting, this`hasOverlay, this`box
      ensures Valid() && !isSelecting && !hasOverlay && box == None
      ensures error == CancelMessage
    {
      Cleanup();
      error := CancelMessage;
    }
  }

  /** A press at one point and a release after one move to another yields
      the rectangle spanned by the two points. */
  method DragOnce(x0: int, y0: int, x1: int, y1: int) returns (effect: MouseUp)
    ensures effect == Captured(Some(DragRect(x0, y0, x1, y1)))
  {
    var c := new SelectionController();
    c.StartScreenCapture();
    c.HandleMouseDown(x0, y0);
    c.HandleMouseMove(x1, y1);
    effect := c.HandleMouseUp();
  }
}
