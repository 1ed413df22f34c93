/**
 * The undoable editing commands of the diagram editor: each command keeps
 * what it needs in its fields, `Redo` performs the edit and `Undo` reverts
 * it, on Objects, on arrows of the current arrow widget, and on the scene
 * that holds them.
 */
module UndoCommands {
  import opened Wrappers
  import opened Geometry
  import opened Grid
  import opened Routing
  import opened Nodes
  import opened Arrows
  import opened Deletion

  /**
   * Where `setPos(p)` leaves an Object: its `itemChange` snaps `p` to the
   * 150 grid, and keeps the object where it is when another Object of its
   * scene (`home`, the scene's Objects if it is in one) already sits in
   * that cell.
   */
  function Landing(o: ObjectNode, p: Point, home: Option<seq<ObjectNode>>): (q: Point)
    reads o, if home.Some? then home.value else []
    ensures q == SnapToGrid(p, NodeGrid) || q == o.pos
    ensures home.None? ==> q == SnapToGrid(p, NodeGrid)
  {
    var cell := SnapToGrid(p, NodeGrid);
    if home.Some? && o.CellTaken(cell, home.value) then o.pos else cell
  }

  /** An object standing on a grid point stays on grid points whatever it is asked to move to. */
  lemma LandingOnGrid(o: ObjectNode, p: Point, home: Option<seq<ObjectNode>>)
    requires SnapToGrid(o.pos, NodeGrid) == o.pos
    ensures SnapToGrid(Landing(o, p, home), NodeGrid) == Landing(o, p, home)
  {
    SnapIdempotent(p, NodeGrid);
  }

  /** Asked to move to a grid point whose cell is free, an object gets exactly there. */
  lemma LandingOnFreePoint(o: ObjectNode, p: Point, home: Option<seq<ObjectNode>>)
    requires SnapToGrid(p, NodeGrid) == p
    requires home.Some? ==> !o.CellTaken(p, home.value)
    ensures Landing(o, p, home) == p
  {
  }

  /** `setPos` on an Object: the position change goes through `itemChange` first. */
  method PositionNode(o: ObjectNode, p: Point, home: Option<seq<ObjectNode>>)
    modifies o`pos
    ensures o.pos == old(Landing(o, p, home))
  {
    var q := o.ItemPositionChange(p, home);
    o.SetPos(q);
  }

  /** The scene the commands act on, as the Objects and the arrows it holds. */
  class ItemScene {
    var objects: seq<ObjectNode>
    var arrows: seq<ArrowItem>

    constructor()
      ensures objects == [] && arrows == []
    {
      objects, arrows := [], [];
    }

    /** `addItem` for an Object: an item already in the scene is not added again. */
    method AddObject(o: ObjectNode)
      modifies this`objects
      ensures objects == Added(old(objects), o)
    {
      if o !in objects {
        objects := objects + [o];
      }
    }

    /** `removeItem` for an Object: an item not in the scene is left alone. */
    method RemoveObject(o: ObjectNode)
      modifies this`objects
      ensures objects == Without(old(objects), {o})
    {
      objects := Without(objects, {o});
    }

    method AddArrow(a: ArrowItem)
      modifies this`arrows
      ensures arrows == Added(old(arrows), a)
    {
      if a !in arrows {
        arrows := arrows + [a];
      }
    }

    method RemoveArrow(a: ArrowItem)
      modifies this`arrows
      ensures arrows == Without(old(arrows), {a})
    {
      arrows := Without(arrows, {a});
    }

    /** Removes `o` if the scene still holds it, on top of the earlier removals of `gone` from `base`. */
    method RemoveObjectAlso(o: ObjectNode, ghost base: seq<ObjectNode>, ghost gone: set<ObjectNode>)
      requires objects == Without(base, gone)
      modifies this`objects
      ensures objects == Without(base, gone + {o})
    {
      if o in objects {
        RemoveObject(o);
        WithoutBoth(base, gone, {o});
      } else {
        WithoutGone(base, gone, o);
      }
    }

    /** Removes `a` if the scene still holds it, on top of the earlier removals of `gone` from `base`. */
    method RemoveArrowAlso(a: ArrowItem, ghost base: seq<ArrowItem>, ghost gone: set<ArrowItem>)
      requires arrows == Without(base, gone)
      modifies this`arrows
      ensures arrows == Without(base, gone + {a})
    {
      if a in arrows {
        RemoveArrow(a);
        WithoutBoth(base, gone, {a});
      } else {
        WithoutGone(base, gone, a);
      }
    }
  }

  /** `RenameObject`: renames an Object through its base name. */
  class RenameObject {
    const obj: ObjectNode
    const oldName: string
    const newName: string

    constructor(obj: ObjectNode, oldName: string, newName: string)
      ensures this.obj == obj && this.oldName == oldName && this.newName == newName
    {
      this.obj, this.oldName, this.newName := obj, oldName, newName;
    }

    method Redo()
      modifies obj`baseName, obj`text
      ensures obj.baseName == newName && obj.text == RenamedDisplay(old(obj.text), newName)
    {
      obj.SetBaseName(newName);
    }

    method Undo()
      modifies obj`baseName, obj`text
      ensures obj.baseName == oldName && obj.text == RenamedDisplay(old(obj.text), oldName)
    {
      obj.SetBaseName(oldName);
    }
  }

  /**
   * A rename followed by its undo: the old base name is back, and the
   * display text is as if only the old name had been set, unless the new
   * name brought in the first colon.
   */
  method RenameObjectAndUndo(c: RenameObject)
    modifies c.obj`baseName, c.obj`text
    ensures c.obj.baseName == c.oldName
    ensures ':' in old(c.obj.text) || ':' !in c.newName ==> c.obj.text == RenamedDisplay(old(c.obj.text), c.oldName)
  {
    ghost var display := c.obj.text;
    c.Redo();
    c.Undo();
    if ':' in display || ':' !in c.newName {
      RenameLastWins(display, c.newName, c.oldName);
    }
  }

  /** `RenameArrow`: renames an arrow through its base name. */
  class RenameArrow {
    const arrow: ArrowItem
    const oldName: string
    const newName: string

    constructor(arrow: ArrowItem, oldName: string, newName: string)
      ensures this.arrow == arrow && this.oldName == oldName && this.newName == newName
    {
      this.arrow, this.oldName, this.newName := arrow, oldName, newName;
    }

    method Redo()
      modifies arrow`text, arrow`labelVisible
      ensures arrow.text == newName
      ensures old(arrow.text) != newName ==> arrow.labelVisible == !arrow.ShouldHideLabel()
      ensures old(arrow.text) == newName ==> arrow.labelVisible == old(arrow.labelVisible)
    {
      arrow.SetBaseName(newName);
    }

    method Undo()
      modifies arrow`text, arrow`labelVisible
      ensures arrow.text == oldName
      ensures old(arrow.text) != oldName ==> arrow.labelVisible == !arrow.ShouldHideLabel()
      ensures old(arrow.text) == oldName ==> arrow.labelVisible == old(arrow.labelVisible)
    {
      arrow.SetBaseName(oldName);
    }
  }

  /**
   * A rename followed by its undo gives the arrow its old name back, with
   * the label shown or hidden as the hiding rule says for that name.
   */
  method RenameArrowAndUndo(c: RenameArrow)
    modifies c.arrow`text, c.arrow`labelVisible
    ensures c.arrow.text == c.oldName
    ensures c.oldName != c.newName ==> c.arrow.labelVisible == !c.arrow.ShouldHideLabel()
  {
    c.Redo();
    c.Undo();
  }

  /** `MoveObject`: moves an Object between two positions. */
  class MoveObject {
    const obj: ObjectNode
    const oldPosition: Point
    const newPosition: Point

    constructor(obj: ObjectNode, oldPosition: Point, newPosition: Point)
      ensures this.obj == obj && this.oldPosition == oldPosition && this.newPosition == newPosition
    {
      this.obj, this.oldPosition, this.newPosition := obj, oldPosition, newPosition;
    }

    /** `home` holds the Objects of the scene the object is in, if it is in one. */
    method Redo(home: Option<seq<ObjectNode>>)
      modifies obj`pos
      ensures obj.pos == old(Landing(obj, newPosition, home))
    {
      PositionNode(obj, newPosition, home);
    }

    method Undo(home: Option<seq<ObjectNode>>)
      modifies obj`pos
      ensures obj.pos == old(Landing(obj, oldPosition, home))
    {
      PositionNode(obj, oldPosition, home);
    }
  }

  /**
   * A move followed by its undo puts an object back where it stood, when it
   * stood at the recorded old position, on a grid point whose cell no other
   * object has taken.
   */
  method MoveObjectAndUndo(c: MoveObject, home: Option<seq<ObjectNode>>)
    modifies c.obj`pos
    ensures old(c.obj.pos) == c.oldPosition && SnapToGrid(c.oldPosition, NodeGrid) == c.oldPosition
            && (home.Some? ==> !old(c.obj.CellTaken(c.oldPosition, home.value)))
            ==> c.obj.pos == old(c.obj.pos)
  {
    c.Redo(home);
    c.Undo(home);
  }

  /** `PlaceObject`: puts a new Object into the scene at a position. */
  class PlaceObject {
    const scene: ItemScene
    const obj: ObjectNode
    const position: Point

    constructor(scene: ItemScene, obj: ObjectNode, position: Point)
      ensures this.scene == scene && this.obj == obj && this.position == position
    {
      this.scene, this.obj, this.position := scene, obj, position;
    }

    method Redo()
      modifies scene`objects, obj`pos
      ensures scene.objects == Added(old(scene.objects), obj)
      ensures obj.pos == old(Landing(obj, position, Some(Added(scene.objects, obj))))
    {
      scene.AddObject(obj);
      PositionNode(obj, position, Some(scene.objects));
    }

    method Undo()
      modifies scene`objects
      ensures scene.objects == Without(old(scene.objects), {obj})
    {
      scene.RemoveObject(obj);
    }
  }

  /** Placing an object that was not in the scene and undoing it leaves the scene's objects as they were. */
  method PlaceObjectAndUndo(c: PlaceObject)
    modifies c.scene`objects, c.obj`pos
    ensures c.obj !in old(c.scene.objects) ==> c.scene.objects == old(c.scene.objects)
  {
    ghost var before := c.scene.objects;
    c.Redo();
    c.Undo();
    if c.obj !in before {
      WithoutAppended(before, c.obj);
    }
  }

  /** `PlaceArrow`: connects an arrow to its two nodes and puts it into the scene. */
  class PlaceArrow {
    const scene: ItemScene
    const arrow: ArrowItem
    const startNode: ObjectNode?
    const endNode: ObjectNode?

    constructor(scene: ItemScene, arrow: ArrowItem, startNode: ObjectNode?, endNode: ObjectNode?)
      ensures this.scene == scene && this.arrow == arrow && this.startNode == startNode && this.endNode == endNode
    {
      this.scene, this.arrow, this.startNode, this.endNode := scene, arrow, startNode, endNode;
    }

    /** `env` gives the geometry `set_nodes` places the arrow with. */
    method Redo(env: Surroundings, sqrt: real -> real)
      requires IsSqrt(sqrt)
      modifies scene`arrows
      modifies arrow`start, arrow`end, arrow`labelVisible, arrow`startPoint, arrow`endPoint, arrow`loopCenter
      modifies arrow`loopRadius, arrow`isSelfLoop, arrow`isCurved, arrow`curveOffset, arrow`curveDirection
      modifies arrow`cp1, arrow`cp2
      ensures arrow.start == startNode && arrow.end == endNode
      ensures arrow.labelVisible == !arrow.ShouldHideLabel()
      ensures scene.arrows == Added(old(scene.arrows), arrow)
    {
      arrow.SetNodes(startNode, endNode, env, sqrt);
      scene.AddArrow(arrow);
    }

    method Undo()
      modifies scene`arrows
      ensures scene.arrows == Without(old(scene.arrows), {arrow})
    {
      scene.RemoveArrow(arrow);
    }
  }

  /**
   * Placing an arrow that was not in the scene and undoing it leaves the
   * scene's arrows as they were; the arrow stays connected to its nodes.
   */
  method PlaceArrowAndUndo(c: PlaceArrow, env: Surroundings, sqrt: real -> real)
    requires IsSqrt(sqrt)
    modifies c.scene`arrows
    modifies c.arrow`start, c.arrow`end, c.arrow`labelVisible, c.arrow`startPoint, c.arrow`endPoint, c.arrow`loopCenter
    modifies c.arrow`loopRadius, c.arrow`isSelfLoop, c.arrow`isCurved, c.arrow`curveOffset, c.arrow`curveDirection
    modifies c.arrow`cp1, c.arrow`cp2
    ensures c.arrow !in old(c.scene.arrows) ==> c.scene.arrows == old(c.scene.arrows)
    ensures c.arrow.start == c.startNode && c.arrow.end == c.endNode
  {
    ghost var before := c.scene.arrows;
    c.Redo(env, sqrt);
    c.Undo();
    if c.arrow !in before {
      WithoutAppended(before, c.arrow);
    }
  }

  /** `FlipArrowCommand`: reverses an arrow by swapping the nodes it had when the command was made. */
  class FlipArrowCommand {
    const arrow: ArrowItem
    const originalSource: ObjectNode?
    const originalTarget: ObjectNode?

    constructor(arrow: ArrowItem)
      ensures this.arrow == arrow
      ensures originalSource == arrow.start && originalTarget == arrow.end
    {
      var source := arrow.GetSource();
      var target := arrow.GetTarget();
      this.arrow, originalSource, originalTarget := arrow, source, target;
    }

    method Redo(env: Surroundings, sqrt: real -> real)
      requires IsSqrt(sqrt)
      modifies arrow`start, arrow`end, arrow`labelVisible, arrow`startPoint, arrow`endPoint, arrow`loopCenter
      modifies arrow`loopRadius, arrow`isSelfLoop, arrow`isCurved, arrow`curveOffset, arrow`curveDirection
      modifies arrow`cp1, arrow`cp2
      ensures arrow.start == originalTarget && arrow.end == originalSource
      ensures arrow.labelVisible == !arrow.ShouldHideLabel()
    {
      arrow.SetNodes(originalTarget, originalSource, env, sqrt);
    }

    method Undo(env: Surroundings, sqrt: real -> real)
      requires IsSqrt(sqrt)
      modifies arrow`start, arrow`end, arrow`labelVisible, arrow`startPoint, arrow`endPoint, arrow`loopCenter
      modifies arrow`loopRadius, arrow`isSelfLoop, arrow`isCurved, arrow`curveOffset, arrow`curveDirection
      modifies arrow`cp1, arrow`cp2
      ensures arrow.start == originalSource && arrow.end == originalTarget
      ensures arrow.labelVisible == !arrow.ShouldHideLabel()
    {
      arrow.SetNodes(originalSource, originalTarget, env, sqrt);
    }
  }

  /** Redoing a flip twice leaves the arrow reversed once, as a single redo does. */
  method FlipTwice(c: FlipArrowCommand, env: Surroundings, sqrt: real -> real)
    requires IsSqrt(sqrt)
    modifies c.arrow`start, c.arrow`end, c.arrow`labelVisible, c.arrow`startPoint, c.arrow`endPoint, c.arrow`loopCenter
    modifies c.arrow`loopRadius, c.arrow`isSelfLoop, c.arrow`isCurved, c.arrow`curveOffset, c.arrow`curveDirection
    modifies c.arrow`cp1, c.arrow`cp2
    ensures c.arrow.start == c.originalTarget && c.arrow.end == c.originalSource
  {
    c.Redo(env, sqrt);
    c.Redo(env, sqrt);
  }

  /** Making a flip, doing it and undoing it gives the arrow back its nodes. */
  method FlipAndUndo(arrow: ArrowItem, env: Surroundings, sqrt: real -> real) returns (c: FlipArrowCommand)
    requires IsSqrt(sqrt)
    modifies arrow`start, arrow`end, arrow`labelVisible, arrow`startPoint, arrow`endPoint, arrow`loopCenter
    modifies arrow`loopRadius, arrow`isSelfLoop, arrow`isCurved, arrow`curveOffset, arrow`curveDirection
    modifies arrow`cp1, arrow`cp2
    ensures c.arrow == arrow
    ensures arrow.start == old(arrow.start) && arrow.end == old(arrow.end)
  {
    c := new FlipArrowCommand(arrow);
    c.Redo(env, sqrt);
    c.Undo(env, sqrt);
  }

  /** An arrow with its current nodes. */
  function LinkOf(a: ArrowItem): Link<ArrowItem>
    reads a
  {
    Link(a, a.start, a.end)
  }

  /** The arrows of a scene with their current nodes, in scene order. */
  function LinksOf(arrows: seq<ArrowItem>): (ls: seq<Link<ArrowItem>>)
    reads arrows
    ensures |ls| == |arrows| && forall i :: 0 <= i < |arrows| ==> ls[i] == LinkOf(arrows[i])
  {
    if arrows == [] then [] else LinksOf(arrows[..|arrows| - 1]) + [LinkOf(arrows[|arrows| - 1])]
  }

  /** The arrow is connected to the nodes the link recorded. */
  predicate Attached(l: Link<ArrowItem>)
    reads l.arrow
  {
    l.arrow.start == l.source && l.arrow.end == l.target
  }

  /** What `DeleteItems` records about a selected item now: an Object's position, or an arrow's nodes. */
  function RecordOf(item: Item<ArrowItem>): Record<ArrowItem>
    reads if item.ObjectEntry? then {item.obj} else {}, if item.ArrowEntry? then {item.arrow} else {}
  {
    match item
    case ObjectEntry(o) => ObjectRecord(o, o.pos)
    case ArrowEntry(a) => ArrowRecord(LinkOf(a))
  }

  /** The first loop of the `DeleteItems` constructor: one record per selected item. */
  method CollectRecords(items: seq<Item<ArrowItem>>) returns (records: seq<Record<ArrowItem>>)
    ensures |records| == |items| && forall i :: 0 <= i < |items| ==> records[i] == RecordOf(items[i])
  {
    records := [];
    for i := 0 to |items|
      invariant |records| == i && forall k :: 0 <= k < i ==> records[k] == RecordOf(items[k])
    {
      match items[i]
      case ObjectEntry(o) =>
        records := records + [ObjectRecord(o, o.pos)];
      case ArrowEntry(a) =>
        var source := a.GetSource();
        var target := a.GetTarget();
        records := records + [ArrowRecord(Link(a, source, target))];
    }
  }

  /** The inner cascade loop: the scene's arrows touching `o` and not selected, in scene order. */
  method CollectTouching(o: ObjectNode, arrows: seq<ArrowItem>, items: seq<Item<ArrowItem>>) returns (t: seq<Link<ArrowItem>>)
    ensures t == TouchingOf(o, LinksOf(arrows), items)
  {
    ghost var links := LinksOf(arrows);
    t := [];
    for i := 0 to |arrows|
      invariant t == TouchingOf(o, links[..i], items)
    {
      var a := arrows[i];
      var source := a.GetSource();
      var target := a.GetTarget();
      TouchingPrefix(o, links, i, items);
      if (source == o || target == o) && ArrowEntry(a) !in items {
        t := t + [Link(a, source, target)];
      }
    }
    assert links[..|arrows|] == links;
  }

  /** The outer cascade loop, over the selected Objects in selection order. */
  method CollectCascade(items: seq<Item<ArrowItem>>, arrows: seq<ArrowItem>) returns (c: seq<Link<ArrowItem>>)
    ensures c == Cascade(items, LinksOf(arrows))
  {
    c := [];
    for i := 0 to |items|
      invariant c == CascadeFrom(items[..i], items, LinksOf(arrows))
    {
      assert items[..i + 1][..i] == items[..i];
      match items[i]
      case ObjectEntry(o) =>
        var t := CollectTouching(o, arrows, items);
        c := c + t;
      case ArrowEntry(_) =>
    }
    assert items[..|items|] == items;
  }

  /** Records and cascade taken from one state of the scene agree with each other. */
  lemma TakenTogether(items: seq<Item<ArrowItem>>, records: seq<Record<ArrowItem>>, arrows: seq<ArrowItem>, cascade: seq<Link<ArrowItem>>)
    requires |records| == |items| && forall i :: 0 <= i < |items| ==> records[i] == RecordOf(items[i])
    requires cascade == Cascade(items, LinksOf(arrows))
    ensures Consistent(records, cascade)
  {
    CascadeWithinScene(items, LinksOf(arrows));
    assert forall l :: l in cascade ==> l == LinkOf(l.arrow);
  }

  /** Every selected item has a record. */
  lemma RecordsCover(items: seq<Item<ArrowItem>>, records: seq<Record<ArrowItem>>)
    requires |records| == |items| && forall i :: 0 <= i < |items| ==> records[i] == RecordOf(items[i])
    ensures forall o :: ObjectEntry(o) in items ==> o in RecordedObjects(records)
    ensures forall a :: ArrowEntry(a) in items ==> a in RecordedArrows(records)
  {
    forall o | ObjectEntry(o) in items
      ensures o in RecordedObjects(records)
    {
      var i :| 0 <= i < |items| && items[i] == ObjectEntry(o);
      assert records[i] in records;
    }
    forall a | ArrowEntry(a) in items
      ensures a in RecordedArrows(records)
    {
      var i :| 0 <= i < |items| && items[i] == ArrowEntry(a);
      assert records[i] in records;
    }
  }

  /** `DeleteItems`: deletes the selected items, together with the arrows of the deleted Objects. */
  class DeleteItems {
    const scene: ItemScene
    /** `item_data`: one record per selected item. */
    const records: seq<Record<ArrowItem>>
    /** `cascade_arrows`: the arrows that go with the deleted Objects, once per Object they touch. */
    const cascade: seq<Link<ArrowItem>>

    ghost predicate Valid()
    {
      Consistent(records, cascade)
    }

    /** Every arrow the command may reconnect. */
    function Arrows(): set<ArrowItem>
    {
      RecordedArrows(records) + ArrowsOf(cascade)
    }

    constructor(scene: ItemScene, items: seq<Item<ArrowItem>>)
      ensures this.scene == scene
      ensures |records| == |items| && forall i :: 0 <= i < |items| ==> records[i] == RecordOf(items[i])
      ensures cascade == Cascade(items, LinksOf(scene.arrows))
      ensures Valid()
    {
      var rs := CollectRecords(items);
      var cs := CollectCascade(items, scene.arrows);
      TakenTogether(items, rs, scene.arrows, cs);
      this.scene, records, cascade := scene, rs, cs;
    }

    /** Removes the cascade arrows, then the selected items, each only if the scene still holds it. */
    method Redo()
      modifies scene`objects, scene`arrows
      ensures scene.objects == Without(old(scene.objects), RecordedObjects(records))
      ensures scene.arrows == Without(old(scene.arrows), ArrowsOf(cascade) + RecordedArrows(records))
    {
      RemoveCascade();
      RemoveSelected();
      WithoutBoth(old(scene.arrows), ArrowsOf(cascade), RecordedArrows(records));
    }

    method RemoveCascade()
      modifies scene`arrows
      ensures scene.arrows == Without(old(scene.arrows), ArrowsOf(cascade))
    {
      WithoutNothing(scene.arrows);
      assert ArrowsOf(cascade[..0]) == {};
      for i := 0 to |cascade|
        invariant scene.arrows == Without(old(scene.arrows), ArrowsOf(cascade[..i]))
      {
        var a := cascade[i].arrow;
        ArrowsOfPrefix(cascade, i);
        scene.RemoveArrowAlso(a, old(scene.arrows), ArrowsOf(cascade[..i]));
      }
      assert cascade[..|cascade|] == cascade;
    }

    method RemoveSelected()
      modifies scene`objects, scene`arrows
      ensures scene.objects == Without(old(scene.objects), RecordedObjects(records))
      ensures scene.arrows == Without(old(scene.arrows), RecordedArrows(records))
    {
      WithoutNothing(scene.objects);
      WithoutNothing(scene.arrows);
      assert RecordedObjects(records[..0]) == {} && RecordedArrows(records[..0]) == {};
      for i := 0 to |records|
        invariant scene.objects == Without(old(scene.objects), RecordedObjects(records[..i]))
        invariant scene.arrows == Without(old(scene.arrows), RecordedArrows(records[..i]))
      {
        RecordedPrefix(records, i);
        match records[i]
        case ObjectRecord(o, _) =>
          assert RecordedObjects(records[..i + 1]) == RecordedObjects(records[..i]) + {o};
          assert RecordedArrows(records[..i + 1]) == RecordedArrows(records[..i]);
          scene.RemoveObjectAlso(o, old(scene.objects), RecordedObjects(records[..i]));
        case ArrowRecord(l) =>
          assert RecordedObjects(records[..i + 1]) == RecordedObjects(records[..i]);
          assert RecordedArrows(records[..i + 1]) == RecordedArrows(records[..i]) + {l.arrow};
          scene.RemoveArrowAlso(l.arrow, old(scene.arrows), RecordedArrows(records[..i]));
      }
      assert records[..|records|] == records;
    }
  
    /** The recorded arrows among the first `n` records are on their recorded nodes. */
    ghost predicate SelectedAttached(n: int)
      reads Arrows()
    {
      forall k :: 0 <= k < n && k < |records| && records[k].ArrowRecord? ==> Attached(records[k].link)
    }

    /** The first `n` cascade arrows are on their recorded nodes. */
    ghost predicate CascadeAttached(n: int)
      reads Arrows()
    {
      forall k :: 0 <= k < n && k < |cascade| ==> Attached(cascade[k])
    }

    /**
     * Every recorded object stands on the grid point of its recorded
     * position, or where it stood in the state `old` refers to.
     */
    twostate predicate Repositioned()
      reads RecordedObjects(records)
    {
      forall k :: 0 <= k < |records| && records[k].ObjectRecord? ==>
        records[k].obj.pos == SnapToGrid(records[k].position, NodeGrid) || records[k].obj.pos == old(records[k].obj.pos)
    }

    /** Puts back every recorded item, then every cascade arrow, each onto its recorded nodes. */
    method Undo(layout: ArrowItem -> Surroundings, sqrt: real -> real)
      requires IsSqrt(sqrt) && Valid()
      modifies scene`objects, scene`arrows, RecordedObjects(records)`pos
      modifies Arrows()`start, Arrows()`end, Arrows()`labelVisible, Arrows()`startPoint, Arrows()`endPoint
      modifies Arrows()`loopCenter, Arrows()`loopRadius, Arrows()`isSelfLoop, Arrows()`isCurved
      modifies Arrows()`curveOffset, Arrows()`curveDirection, Arrows()`cp1, Arrows()`cp2
      ensures Members(scene.objects) == Members(old(scene.objects)) + RecordedObjects(records)
      ensures Members(scene.arrows) == Members(old(scene.arrows)) + Arrows()
      ensures SelectedAttached(|records|) && CascadeAttached(|cascade|)
      ensures Repositioned()
    {
      RestoreSelected(layout, sqrt);
      label selected:
      RestoreCascade(layout, sqrt);
      assert Repositioned@selected();
    }

    method RestoreSelected(layout: ArrowItem -> Surroundings, sqrt: real -> real)
      requires IsSqrt(sqrt) && Valid()
      modifies scene`objects, scene`arrows, RecordedObjects(records)`pos
      modifies Arrows()`start, Arrows()`end, Arrows()`labelVisible, Arrows()`startPoint, Arrows()`endPoint
      modifies Arrows()`loopCenter, Arrows()`loopRadius, Arrows()`isSelfLoop, Arrows()`isCurved
      modifies Arrows()`curveOffset, Arrows()`curveDirection, Arrows()`cp1, Arrows()`cp2
      ensures Members(scene.objects) == Members(old(scene.objects)) + RecordedObjects(records)
      ensures Members(scene.arrows) == Members(old(scene.arrows)) + RecordedArrows(records)
      ensures SelectedAttached(|records|)
      ensures Repositioned()
    {
      assert RecordedObjects(records[..0]) == {} && RecordedArrows(records[..0]) == {};
      for i := 0 to |records|
        invariant Members(scene.objects) == Members(old(scene.objects)) + RecordedObjects(records[..i])
        invariant Members(scene.arrows) == Members(old(scene.arrows)) + RecordedArrows(records[..i])
        invariant SelectedAttached(i)
        invariant Repositioned()
      {
        RecordedPrefix(records, i);
        label before:
        RestoreRecord(i, layout, sqrt);
        assert Repositioned@before();
      }
      assert records[..|records|] == records;
    }

    /** Puts back the item of record `i`: an Object at its position, an arrow onto its nodes. */
    method RestoreRecord(i: int, layout: ArrowItem -> Surroundings, sqrt: real -> real)
      requires 0 <= i < |records| && IsSqrt(sqrt) && Valid() && SelectedAttached(i)
      modifies scene`objects, scene`arrows, RecordedObjects(records)`pos
      modifies Arrows()`start, Arrows()`end, Arrows()`labelVisible, Arrows()`startPoint, Arrows()`endPoint
      modifies Arrows()`loopCenter, Arrows()`loopRadius, Arrows()`isSelfLoop, Arrows()`isCurved
      modifies Arrows()`curveOffset, Arrows()`curveDirection, Arrows()`cp1, Arrows()`cp2
      ensures Members(scene.objects) == Members(old(scene.objects)) + (if records[i].ObjectRecord? then {records[i].obj} else {})
      ensures Members(scene.arrows) == Members(old(scene.arrows)) + (if records[i].ArrowRecord? then {records[i].link.arrow} else {})
      ensures SelectedAttached(i + 1)
      ensures Repositioned()
    {
      if records[i].ObjectRecord? {
        RestoreObject(i);
      } else {
        RestoreArrow(i, layout, sqrt);
      }
    }

    /** Puts Object record `i`'s object back into the scene and moves it to its recorded position. */
    method RestoreObject(i: int)
      requires 0 <= i < |records| && records[i].ObjectRecord? && Valid() && SelectedAttached(i)
      modifies scene`objects, records[i].obj`pos
      ensures Members(scene.objects) == Members(old(scene.objects)) + {records[i].obj}
      ensures SelectedAttached(i + 1)
      ensures Repositioned()
    {
      var o, p := records[i].obj, records[i].position;
      AddedMembers(scene.objects, o);
      scene.AddObject(o);
      PositionNode(o, p, Some(scene.objects));
      forall k | 0 <= k < |records| && records[k].ObjectRecord? && records[k].obj == o
        ensures records[k].position == p
      {
        assert RecordsAgree(records[k], records[i]);
      }
    }

    /** Puts arrow record `i`'s arrow back into the scene and onto its recorded nodes. */
    method RestoreArrow(i: int, layout: ArrowItem -> Surroundings, sqrt: real -> real)
      requires 0 <= i < |records| && records[i].ArrowRecord? && IsSqrt(sqrt) && Valid() && SelectedAttached(i)
      modifies scene`arrows
      modifies Arrows()`start, Arrows()`end, Arrows()`labelVisible, Arrows()`startPoint, Arrows()`endPoint
      modifies Arrows()`loopCenter, Arrows()`loopRadius, Arrows()`isSelfLoop, Arrows()`isCurved
      modifies Arrows()`curveOffset, Arrows()`curveDirection, Arrows()`cp1, Arrows()`cp2
      ensures Members(scene.arrows) == Members(old(scene.arrows)) + {records[i].link.arrow}
      ensures SelectedAttached(i + 1)
    {
      var l := records[i].link;
      assert records[i] in records;
      AddedMembers(scene.arrows, l.arrow);
      scene.AddArrow(l.arrow);
      l.arrow.SetNodes(l.source, l.target, layout(l.arrow), sqrt);
      forall k | 0 <= k < i + 1 && records[k].ArrowRecord?
        ensures Attached(records[k].link)
      {
        assert RecordsAgree(records[k], records[i]);
      }
    }

    method RestoreCascade(layout: ArrowItem -> Surroundings, sqrt: real -> real)
      requires IsSqrt(sqrt) && Valid() && SelectedAttached(|records|)
      modifies scene`arrows
      modifies Arrows()`start, Arrows()`end, Arrows()`labelVisible, Arrows()`startPoint, Arrows()`endPoint
      modifies Arrows()`loopCenter, Arrows()`loopRadius, Arrows()`isSelfLoop, Arrows()`isCurved
      modifies Arrows()`curveOffset, Arrows()`curveDirection, Arrows()`cp1, Arrows()`cp2
      ensures Members(scene.arrows) == Members(old(scene.arrows)) + ArrowsOf(cascade)
      ensures SelectedAttached(|records|) && CascadeAttached(|cascade|)
    {
      assert ArrowsOf(cascade[..0]) == {};
      for i := 0 to |cascade|
        invariant Members(scene.arrows) == Members(old(scene.arrows)) + ArrowsOf(cascade[..i])
        invariant SelectedAttached(|records|) && CascadeAttached(i)
      {
        ArrowsOfPrefix(cascade, i);
        RestoreLink(i, layout, sqrt);
      }
      assert cascade[..|cascade|] == cascade;
    }

    /** Puts back cascade arrow `i` onto its recorded nodes. */
    method RestoreLink(i: int, layout: ArrowItem -> Surroundings, sqrt: real -> real)
      requires 0 <= i < |cascade| && IsSqrt(sqrt) && Valid() && SelectedAttached(|records|) && CascadeAttached(i)
      modifies scene`arrows
      modifies Arrows()`start, Arrows()`end, Arrows()`labelVisible, Arrows()`startPoint, Arrows()`endPoint
      modifies Arrows()`loopCenter, Arrows()`loopRadius, Arrows()`isSelfLoop, Arrows()`isCurved
      modifies Arrows()`curveOffset, Arrows()`curveDirection, Arrows()`cp1, Arrows()`cp2
      ensures Members(scene.arrows) == Members(old(scene.arrows)) + {cascade[i].arrow}
      ensures SelectedAttached(|records|) && CascadeAttached(i + 1)
    {
      var l := cascade[i];
      assert l in cascade;
      AddedMembers(scene.arrows, l.arrow);
      scene.AddArrow(l.arrow);
      l.arrow.SetNodes(l.source, l.target, layout(l.arrow), sqrt);
      forall k | 0 <= k < i + 1
        ensures Attached(cascade[k])
      {
        assert LinksAgree(cascade[k], cascade[i]);
      }
      forall k | 0 <= k < |records| && records[k].ArrowRecord?
        ensures Attached(records[k].link)
      {
        assert LinksAgree(records[k].link, cascade[i]);
      }
    }
  }

  /**
   * Deleting a selection, as the command does when it is first pushed: no
   * selected item stays in the scene, and no arrow left in the scene starts
   * or ends at a deleted Object.
   */
  method DeleteSelection(scene: ItemScene, items: seq<Item<ArrowItem>>) returns (cmd: DeleteItems)
    modifies scene`objects, scene`arrows
    ensures fresh(cmd) && cmd.scene == scene && cmd.Valid()
    ensures forall o :: ObjectEntry(o) in items ==> o !in scene.objects
    ensures forall a :: ArrowEntry(a) in items ==> a !in scene.arrows
    ensures forall a, o :: a in scene.arrows && ObjectEntry(o) in items ==> a.start != o && a.end != o
  {
    ghost var arrows := scene.arrows;
    cmd := new DeleteItems(scene, items);
    RecordsCover(items, cmd.records);
    ghost var gone := ArrowsOf(cmd.cascade) + RecordedArrows(cmd.records);
    cmd.Redo();
    forall o | ObjectEntry(o) in items
      ensures o !in scene.objects
    {
      WithoutMembers(old(scene.objects), RecordedObjects(cmd.records), o);
    }
    forall a | ArrowEntry(a) in items
      ensures a !in scene.arrows
    {
      WithoutMembers(arrows, gone, a);
    }
    forall a, o | a in scene.arrows && ObjectEntry(o) in items
      ensures a.start != o && a.end != o
    {
      WithoutMembers(arrows, gone, a);
      var k :| 0 <= k < |arrows| && arrows[k] == a;
      var l := LinkOf(a);
      assert l == LinksOf(arrows)[k];
      assert l !in cmd.cascade;
      CascadeMembers(items, LinksOf(arrows), l);
      TouchCountPositive(items, l, o);
    }
  }

  /**
   * Making a `DeleteItems` for items the scene holds and doing it: what the
   * command recorded is what the scene held, with the positions and nodes
   * it had, and the scene has lost exactly the recorded items and the cascade.
   */
  method DeleteHeld(scene: ItemScene, items: seq<Item<ArrowItem>>) returns (cmd: DeleteItems)
    requires forall o :: ObjectEntry(o) in items ==> o in scene.objects
    requires forall a :: ArrowEntry(a) in items ==> a in scene.arrows
    modifies scene`objects, scene`arrows
    ensures fresh(cmd) && cmd.scene == scene && cmd.Valid()
    ensures forall k :: 0 <= k < |cmd.records| && cmd.records[k].ObjectRecord? ==>
      cmd.records[k].obj in old(scene.objects) && cmd.records[k].position == (var o := cmd.records[k].obj; old(o.pos))
    ensures forall k :: 0 <= k < |cmd.records| && cmd.records[k].ArrowRecord? ==>
      cmd.records[k].link.arrow in old(scene.arrows) && cmd.records[k].link == (var a := cmd.records[k].link.arrow; old(LinkOf(a)))
    ensures forall l :: l in cmd.cascade ==> l.arrow in old(scene.arrows) && l == (var a := l.arrow; old(LinkOf(a)))
    ensures RecordedObjects(cmd.records) <= old(Members(scene.objects))
    ensures cmd.Arrows() <= old(Members(scene.arrows))
    ensures scene.objects == Without(old(scene.objects), RecordedObjects(cmd.records))
    ensures scene.arrows == Without(old(scene.arrows), ArrowsOf(cmd.cascade) + RecordedArrows(cmd.records))
  {
    ghost var links := LinksOf(scene.arrows);
    cmd := new DeleteItems(scene, items);
    assert cmd.cascade == Cascade(items, links);
    CascadeWithinScene(items, links);
    ghost var records, cascade := cmd.records, cmd.cascade;
    forall k | 0 <= k < |records|
      ensures records[k].ObjectRecord? ==> records[k].obj in scene.objects && records[k].position == old(records[k].obj.pos)
      ensures records[k].ArrowRecord? ==> records[k].link.arrow in scene.arrows && records[k].link == old(LinkOf(records[k].link.arrow))
    {
      assert items[k] in items;
    }
    forall l | l in cascade
      ensures l.arrow in scene.arrows && l == old(LinkOf(l.arrow))
    {
      var k :| 0 <= k < |links| && links[k] == l;
    }
    assert RecordedObjects(records) <= Members(scene.objects);
    assert cmd.Arrows() <= Members(scene.arrows);
    cmd.Redo();
  }

  /**
   * A deletion of items the scene holds, done and then undone: the scene
   * holds the same Objects and arrows again, every arrow is on the nodes it
   * had, and every Object is back where it stood, up to the snapping its
   * `setPos` applies (exactly back when it stood on a grid point).
   */
  method DeleteItemsAndUndo(scene: ItemScene, items: seq<Item<ArrowItem>>, layout: ArrowItem -> Surroundings, sqrt: real -> real)
    returns (cmd: DeleteItems)
    requires IsSqrt(sqrt)
    requires forall o :: ObjectEntry(o) in items ==> o in scene.objects
    requires forall a :: ArrowEntry(a) in items ==> a in scene.arrows
    modifies scene`objects, scene`arrows, Members(scene.objects)`pos
    modifies Members(scene.arrows)`start, Members(scene.arrows)`end, Members(scene.arrows)`labelVisible
    modifies Members(scene.arrows)`startPoint, Members(scene.arrows)`endPoint, Members(scene.arrows)`loopCenter
    modifies Members(scene.arrows)`loopRadius, Members(scene.arrows)`isSelfLoop, Members(scene.arrows)`isCurved
    modifies Members(scene.arrows)`curveOffset, Members(scene.arrows)`curveDirection
    modifies Members(scene.arrows)`cp1, Members(scene.arrows)`cp2
    ensures Members(scene.objects) == old(Members(scene.objects))
    ensures Members(scene.arrows) == old(Members(scene.arrows))
    ensures forall a :: a in old(scene.arrows) ==> a.start == old(a.start) && a.end == old(a.end)
    ensures forall o :: o in old(scene.objects) ==> o.pos == old(o.pos) || o.pos == SnapToGrid(old(o.pos), NodeGrid)
    ensures forall o :: o in old(scene.objects) && SnapToGrid(old(o.pos), NodeGrid) == old(o.pos) ==> o.pos == old(o.pos)
  {
    ghost var objects, arrows := scene.objects, scene.arrows;
    cmd := DeleteHeld(scene, items);
    ghost var records, cascade := cmd.records, cmd.cascade;
    label deleted:
    cmd.Undo(layout, sqrt);
    WithoutMembersSet(objects, RecordedObjects(records));
    ghost var gone: set<ArrowItem> := ArrowsOf(cascade) + RecordedArrows(records);
    WithoutMembersSet(arrows, gone);
    assert gone == cmd.Arrows();
    forall a | a in arrows
      ensures a.start == old(a.start) && a.end == old(a.end)
    {
      if a in RecordedArrows(records) {
        var k :| 0 <= k < |records| && records[k].ArrowRecord? && records[k].link.arrow == a;
      } else if a in ArrowsOf(cascade) {
        var k :| 0 <= k < |cascade| && cascade[k].arrow == a;
      }
    }
    forall o | o in objects
      ensures o.pos == old(o.pos) || o.pos == SnapToGrid(old(o.pos), NodeGrid)
    {
      if o in RecordedObjects(records) {
        var k :| 0 <= k < |records| && records[k].ObjectRecord? && records[k].obj == o;
      }
    }
  }
}
