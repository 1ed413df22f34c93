/**
 * Diagram objects: the grid-snapping node base (position, size, pen and
 * brush, cycle highlighting, move tracking) together with the labelled
 * Object built on it (a base name and a display text that may carry an
 * element prefix "x:A").
 */
module Nodes {
  import opened Wrappers
  import opened Geometry
  import opened Grid
  import opened Text

  datatype Color = Color(r: int, g: int, b: int, a: int)
  datatype Pen = Pen(color: Color, width: int)
  datatype Brush = Brush(color: Color)
  datatype Rect = Rect(x: real, y: real, width: real, height: real)

  /** A finished drag: where the object was picked up and where it was dropped. */
  datatype Move = Move(from: Point, to: Point)

  /** The snapping grid of a dragged node, fixed at 150 whatever the scene's grid. */
  const NodeGrid: int := 150

  const Transparent: Color := Color(0, 0, 0, 0)
  /** The border drawn around a highlighted node. */
  const HighlightPen: Pen := Pen(Color(255, 0, 0, 255), 3)

  /**
   * The display text after renaming the object to `name`: the name itself
   * when there is no element prefix, else the prefix before the first ':'
   * followed by ':' and the name.
   */
  function RenamedDisplay(display: string, name: string): string
  {
    if ':' !in display then name else Before(display, ':') + ":" + name
  }

  /** Renaming keeps the element prefix and puts the new name after the first colon. */
  lemma RenameKeepsElements(display: string, name: string)
    requires ':' in display
    ensures ':' in RenamedDisplay(display, name)
    ensures Before(RenamedDisplay(display, name), ':') == Before(display, ':')
    ensures After(RenamedDisplay(display, name), ':') == name
  {
    var pre := Before(display, ':');
    var r := RenamedDisplay(display, name);
    assert r == pre + ([':'] + name);
    FindAfterPrefix(pre, ':', name);
    assert Find(r, ':') == |pre|;
    assert r[..|pre|] == pre;
    assert r[|pre| + 1..] == name;
  }

  /**
   * Renaming twice is renaming once to the second name (in particular,
   * renaming twice to one name is renaming once), unless the first renaming
   * is what brings the first colon in.
   */
  lemma RenameLastWins(display: string, first: string, second: string)
    requires ':' in display || ':' !in first
    ensures RenamedDisplay(RenamedDisplay(display, first), second) == RenamedDisplay(display, second)
  {
    if ':' in display {
      RenameKeepsElements(display, first);
    }
  }

  /** A name holding a colon, given to an object without one, is not stable under renaming. */
  lemma RenameColonNameMoves()
    ensures RenamedDisplay(RenamedDisplay("A", "x:B"), "x:B") == "x:x:B"
  {
    assert RenamedDisplay("A", "x:B") == "x:B";
    FindAfterPrefix("x", ':', "B");
    assert "x:B" == "x" + ([':'] + "B");
    assert Before("x:B", ':') == "x";
  }

  /**
   * The outcome of the rename dialog opened from the context menu: the name
   * to rename the object to, or nothing when the dialog was cancelled, the
   * name is empty, or it is the current base name.
   */
  function RenameRequest(accepted: Option<string>, baseName: string): (r: Option<string>)
    ensures r.Some? <==> accepted.Some? && accepted.value != "" && accepted.value != baseName
    ensures r.Some? ==> r == accepted
  {
    if accepted.Some? && accepted.value != "" && accepted.value != baseName then accepted else None
  }

  /**
   * The label rectangle for a text of the given size: 10 units of padding on
   * each side, widened to a square when narrower than tall, centred on the
   * origin.
   */
  function LabelRect(textWidth: real, textHeight: real): (r: Rect)
    ensures r.x == -r.width / 2.0 && r.y == -r.height / 2.0
    ensures r.width >= r.height
    ensures r.height == textHeight + 20.0
    ensures r.width >= textWidth + 20.0
    ensures r.width == textWidth + 20.0 || r.width == r.height
  {
    var w := textWidth + 20.0;
    var h := textHeight + 20.0;
    var w' := if w < h then h else w;
    Rect(-w' / 2.0, -h / 2.0, w', h)
  }

  class ObjectNode {
    var pos: Point
    var width: real
    var height: real
    var pen: Pen
    var brush: Brush
    var originalPen: Pen
    var originalBrush: Brush
    var highlightColor: Option<Color>
    var startPosition: Option<Point>
    var isMoving: bool
    /** The display text. */
    var text: string
    /** The name the object is known by, without any element prefix. */
    var baseName: string
    var labelManuallyHidden: bool

    /** Highlighting is off exactly when the original pen and brush are in use. */
    predicate Valid()
      reads this
    {
      highlightColor.None? ==> pen == originalPen && brush == originalBrush
    }

    /** `Object(text)`: a transparent 80 by 80 object whose base name is its text. */
    constructor(text: string)
      ensures this.text == text && baseName == text
      ensures width == 80.0 && height == 80.0 && pos == Point(0.0, 0.0)
      ensures pen == Pen(Transparent, 0) && brush == Brush(Transparent)
      ensures highlightColor == None && startPosition == None && !isMoving
      ensures !labelManuallyHidden && Valid()
    {
      pos := Point(0.0, 0.0);
      width, height := 80.0, 80.0;
      pen := Pen(Transparent, 0);
      brush := Brush(Transparent);
      originalPen, originalBrush := pen, brush;
      highlightColor := None;
      startPosition := None;
      isMoving := false;
      this.text := text;
      baseName := text;
      labelManuallyHidden := false;
    }

    /** The plain node's rectangle: from the origin, as wide and tall as the node. */
    function NodeRect(): (r: Rect)
      reads this
      ensures r.x == 0.0 && r.y == 0.0 && r.width == width && r.height == height
    {
      Rect(0.0, 0.0, width, height)
    }

    method SetSize(w: real, h: real)
      modifies this`width, this`height
      ensures width == w && height == h
    {
      width, height := w, h;
    }

    method SetPen(p: Pen)
      modifies this`pen
      ensures pen == p
    {
      pen := p;
    }

    method SetBrush(b: Brush)
      modifies this`brush
      ensures brush == b
    {
      brush := b;
    }

    method SetPos(p: Point)
      modifies this`pos
      ensures pos == p
    {
      pos := p;
    }

    /** Changes only the display text; the base name is left alone. */
    method SetText(t: string)
      modifies this`text
      ensures text == t
    {
      text := t;
    }

    method SetBaseName(name: string)
      modifies this`baseName, this`text
      ensures baseName == name
      ensures text == RenamedDisplay(old(text), name)
    {
      baseName := name;
      if ':' !in text {
        SetText(name);
      } else {
        SetText(Before(text, ':') + ":" + name);
      }
    }

    method GetText() returns (name: string)
      ensures name == baseName
    {
      name := baseName;
    }

    method GetDisplayText() returns (display: string)
      ensures display == text
    {
      display := text;
    }

    method ToggleLabelVisibility()
      modifies this`labelManuallyHidden
      ensures labelManuallyHidden == !old(labelManuallyHidden)
    {
      labelManuallyHidden := !labelManuallyHidden;
    }

    /**
     * A highlight colour paints a red border and a fill of that colour; no
     * colour restores the original pen and brush.
     */
    method SetHighlightColor(color: Option<Color>)
      modifies this`highlightColor, this`pen, this`brush
      ensures highlightColor == color
      ensures color.Some? ==> pen == HighlightPen && brush == Brush(color.value)
      ensures color.None? ==> pen == originalPen && brush == originalBrush
      ensures Valid()
    {
      highlightColor := color;
      if color.Some? {
        pen := HighlightPen;
        brush := Brush(color.value);
      } else {
        pen := originalPen;
        brush := originalBrush;
      }
    }

    method ClearHighlightColor()
      modifies this`highlightColor, this`pen, this`brush
      ensures highlightColor == None && pen == originalPen && brush == originalBrush
      ensures Valid()
    {
      SetHighlightColor(None);
    }

    /**
     * The position a drag proposes, corrected: snapped to the node grid, or
     * the current position when another object of the scene already sits in
     * that cell. Without a scene the snapped position is taken as is.
     */
    method ItemPositionChange(proposed: Point, scene: Option<seq<ObjectNode>>) returns (p: Point)
      ensures scene.None? ==> p == SnapToGrid(proposed, NodeGrid)
      ensures scene.Some? ==>
        p == (if CellTaken(SnapToGrid(proposed, NodeGrid), scene.value) then pos
              else SnapToGrid(proposed, NodeGrid))
    {
      var snapped := SnapToGrid(proposed, NodeGrid);
      if scene.None? {
        return snapped;
      }
      var items := scene.value;
      var i := 0;
      while i < |items|
        invariant 0 <= i <= |items|
        invariant !TakenBefore(snapped, items, i)
      {
        if items[i] != this && SnapToGrid(items[i].pos, NodeGrid) == snapped {
          assert TakenBefore(snapped, items, i + 1);
          return pos;
        }
        i := i + 1;
      }
      return snapped;
    }

    /** Some other object among `items` snaps to `cell`. */
    predicate CellTaken(cell: Point, items: seq<ObjectNode>)
      reads items
    {
      TakenBefore(cell, items, |items|)
    }

    /** Some other object among the first `n` of `items` snaps to `cell`. */
    predicate TakenBefore(cell: Point, items: seq<ObjectNode>, n: int)
      requires n <= |items|
      reads items
    {
      exists k :: 0 <= k < n && items[k] != this && SnapToGrid(items[k].pos, NodeGrid) == cell
    }

    /** A press starts tracking a move from the current position. */
    method MousePress()
      modifies this`startPosition, this`isMoving
      ensures startPosition == Some(pos) && isMoving
    {
      startPosition := Some(pos);
      isMoving := true;
    }

    /**
     * A release ends tracking. It yields the move to record only for the left
     * button, while a move is tracked from a known start, and when the object
     * did not end where it started.
     */
    method MouseRelease(leftButton: bool) returns (move: Option<Move>)
      modifies this`startPosition, this`isMoving
      ensures move.Some? <==>
        leftButton && old(isMoving) && old(startPosition).Some? && old(startPosition).value != pos
      ensures move.Some? ==> move.value == Move(old(startPosition).value, pos)
      ensures !isMoving && startPosition == None
    {
      move := None;
      if leftButton && isMoving && startPosition.Some? {
        if startPosition.value != pos {
          move := Some(Move(startPosition.value, pos));
        }
      }
      isMoving := false;
      startPosition := None;
    }
  }

  /** A press followed by a release without any movement records nothing. */
  method PressAndRelease(node: ObjectNode) returns (move: Option<Move>)
    modifies node
    ensures move == None
    ensures node.pos == old(node.pos) && !node.isMoving && node.startPosition == None
  {
    node.MousePress();
    move := node.MouseRelease(true);
  }
}
