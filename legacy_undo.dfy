/**
 * The older undoable commands, written for the older arrow class: the same
 * rename, place, delete and flip commands, on a `DiagramScene` whose arrows
 * are older arrows. The older Object's `setPos` is taken as a plain move:
 * the Node class it inherits from (root node.py) is not part of this model.
 */
module LegacyUndo {
  import opened Wrappers
  import opened Geometry
  import opened Routing
  import opened Nodes
  import opened Deletion
  import LegacyArrows
  import Scene

  type Arrow = LegacyArrows.Arrow
  type DiagramScene = Scene.DiagramScene

  /** `addItem` for an Object: an item already in the scene is not added again. */
  method AddObject(scene: DiagramScene, o: ObjectNode)
    modifies scene`objects
    ensures scene.objects == Added(old(scene.objects), o)
  {
    if o !in scene.objects {
      scene.objects := scene.objects + [o];
    }
  }

  /** `removeItem` for an Object: an item not in the scene is left alone. */
  method RemoveObject(scene: DiagramScene, o: ObjectNode)
    modifies scene`objects
    ensures scene.objects == Without(old(scene.objects), {o})
  {
    scene.objects := Without(scene.objects, {o});
  }

  method AddArrow(scene: DiagramScene, a: Arrow)
    modifies scene`arrows
    ensures scene.arrows == Added(old(scene.arrows), a)
  {
    if a !in scene.arrows {
      scene.arrows := scene.arrows + [a];
    }
  }

  method RemoveArrow(scene: DiagramScene, a: Arrow)
    modifies scene`arrows
    ensures scene.arrows == Without(old(scene.arrows), {a})
  {
    scene.arrows := Without(scene.arrows, {a});
  }

  /** Removes `o` if the scene still holds it, on top of the earlier removals of `gone` from `base`. */
  method RemoveObjectAlso(scene: DiagramScene, o: ObjectNode, ghost base: seq<ObjectNode>, ghost gone: set<ObjectNode>)
    requires scene.objects == Without(base, gone)
    modifies scene`objects
    ensures scene.objects == Without(base, gone + {o})
  {
    if o in scene.objects {
      RemoveObject(scene, o);
      WithoutBoth(base, gone, {o});
    } else {
      WithoutGone(base, gone, o);
    }
  }

  /** Removes `a` if the scene still holds it, on top of the earlier removals of `gone` from `base`. */
  method RemoveArrowAlso(scene: DiagramScene, a: Arrow, ghost base: seq<Arrow>, ghost gone: set<Arrow>)
    requires scene.arrows == Without(base, gone)
    modifies scene`arrows
    ensures scene.arrows == Without(base, gone + {a})
  {
    if a in scene.arrows {
      RemoveArrow(scene, a);
      WithoutBoth(base, gone, {a});
    } else {
      WithoutGone(base, gone, a);
    }
  }

  /** `RenameObject`: renames an Object through its displayed text. */
  class RenameObject {
    const obj: ObjectNode
    const oldName: string
    const newName: string

    constructor(obj: ObjectNode, oldName: string, newName: string)
      ensures this.obj == obj && this.oldName == oldName && this.newName == newName
    {
      this.obj, this.oldName, this.newName := obj, oldName, newName;
    }

    method Redo()
      modifies obj`text
      ensures obj.text == newName
    {
      obj.SetText(newName);
    }

    method Undo()
      modifies obj`text
      ensures obj.text == oldName
    {
      obj.SetText(oldName);
    }
  }

  /**
   * A rename made from the object's current text, done and undone, gives
   * the object its text back; its base name is never touched.
   */
  method RenameObjectAndUndo(obj: ObjectNode, newName: string) returns (c: RenameObject)
    modifies obj`text
    ensures c.obj == obj && c.newName == newName
    ensures obj.text == old(obj.text) && obj.baseName == old(obj.baseName)
  {
    c := new RenameObject(obj, obj.text, newName);
    c.Redo();
    c.Undo();
  }

  /** `RenameArrow`: renames an arrow through its text. */
  class RenameArrow {
    const arrow: Arrow
    const oldName: string
    const newName: string

    constructor(arrow: Arrow, oldName: string, newName: string)
      ensures this.arrow == arrow && this.oldName == oldName && this.newName == newName
    {
      this.arrow, this.oldName, this.newName := arrow, oldName, newName;
    }

    method Redo()
      modifies arrow`text
      ensures arrow.text == newName
    {
      arrow.SetText(newName);
    }

    method Undo()
      modifies arrow`text
      ensures arrow.text == oldName
    {
      arrow.SetText(oldName);
    }
  }

  /** A rename made from the arrow's current text, done and undone, gives the arrow its text back. */
  method RenameArrowAndUndo(arrow: Arrow, newName: string) returns (c: RenameArrow)
    modifies arrow`text
    ensures c.arrow == arrow && c.newName == newName
    ensures arrow.text == old(arrow.text)
  {
    c := new RenameArrow(arrow, arrow.text, newName);
    c.Redo();
    c.Undo();
  }

  /** `PlaceObject`: puts an Object into the scene at a position. */
  class PlaceObject {
    const scene: DiagramScene
    const obj: ObjectNode
    const position: Point

    constructor(scene: DiagramScene, obj: ObjectNode, position: Point)
      ensures this.scene == scene && this.obj == obj && this.position == position
    {
      this.scene, this.obj, this.position := scene, obj, position;
    }

    method Redo()
      modifies scene`objects, obj`pos
      ensures scene.objects == Added(old(scene.objects), obj)
      ensures obj.pos == position
    {
      AddObject(scene, obj);
      obj.SetPos(position);
    }

    method Undo()
      modifies scene`objects
      ensures scene.objects == Without(old(scene.objects), {obj})
    {
      RemoveObject(scene, obj);
    }
  }

  /**
   * Placing an object that was not in the scene and undoing it leaves the
   * scene's objects as they were, with the object at the placed position.
   */
  method PlaceObjectAndUndo(c: PlaceObject)
    modifies c.scene`objects, c.obj`pos
    ensures c.obj !in old(c.scene.objects) ==> c.scene.objects == old(c.scene.objects)
    ensures c.obj.pos == c.position
  {
    ghost var before := c.scene.objects;
    c.Redo();
    c.Undo();
    if c.obj !in before {
      WithoutAppended(before, c.obj);
    }
  }

  /** `PlaceArrow`: connects an arrow to its nodes, then puts it into the scene. */
  class PlaceArrow {
    const scene: DiagramScene
    const arrow: Arrow
    const startNode: ObjectNode?
    const endNode: ObjectNode?

    constructor(scene: DiagramScene, arrow: Arrow, startNode: ObjectNode?, endNode: ObjectNode?)
      ensures this.scene == scene && this.arrow == arrow && this.startNode == startNode && this.endNode == endNode
    {
      this.scene, this.arrow, this.startNode, this.endNode := scene, arrow, startNode, endNode;
    }

    /** `env` gives the geometry `set_nodes` places the arrow with. */
    method Redo(env: LegacyArrows.Surroundings, sqrt: real -> real)
      requires IsSqrt(sqrt)
      modifies scene`arrows
      modifies arrow`start, arrow`end, arrow`startPoint, arrow`endPoint, arrow`loopCenter, arrow`loopRadius
      modifies arrow`isSelfLoop, arrow`isCurved, arrow`curveOffset, arrow`cp1, arrow`cp2
      ensures arrow.start == startNode && arrow.end == endNode
      ensures startNode != null && startNode == endNode ==> arrow.LoopPlaced(env)
      ensures startNode != null && endNode != null && startNode != endNode ==> arrow.EdgesPlaced(env, sqrt)
      ensures scene.arrows == Added(old(scene.arrows), arrow)
    {
      scene.RedoPlacement(arrow, startNode, endNode, env, sqrt);
    }

    method Undo()
      modifies scene`arrows
      ensures scene.arrows == Without(old(scene.arrows), {arrow})
    {
      RemoveArrow(scene, arrow);
    }
  }

  /**
   * Placing an arrow that was not in the scene and undoing it leaves the
   * scene's arrows as they were; the arrow stays connected to its nodes.
   */
  method PlaceArrowAndUndo(c: PlaceArrow, env: LegacyArrows.Surroundings, sqrt: real -> real)
    requires IsSqrt(sqrt)
    modifies c.scene`arrows
    modifies c.arrow`start, c.arrow`end, c.arrow`startPoint, c.arrow`endPoint, c.arrow`loopCenter, c.arrow`loopRadius
    modifies c.arrow`isSelfLoop, c.arrow`isCurved, c.arrow`curveOffset, c.arrow`cp1, c.arrow`cp2
    ensures c.arrow !in old(c.scene.arrows) ==> c.scene.arrows == old(c.scene.arrows)
    ensures c.arrow.start == c.startNode && c.arrow.end == c.endNode
  {
    ghost var before := c.scene.arrows;
    c.Redo(env, sqrt);
    c.Undo();
    if c.arrow !in before {
      WithoutAppended(before, c.arrow);
    }
  }

  /** `FlipArrowCommand`: reverses an arrow by swapping the nodes it had when the command was made. */
  class FlipArrowCommand {
    const arrow: Arrow
    const originalSource: ObjectNode?
    const originalTarget: ObjectNode?

    constructor(arrow: Arrow)
      ensures this.arrow == arrow
      ensures originalSource == arrow.start && originalTarget == arrow.end
    {
      var source := arrow.GetSource();
      var target := arrow.GetTarget();
      this.arrow, originalSource, originalTarget := arrow, source, target;
    }

    method Redo(env: LegacyArrows.Surroundings, sqrt: real -> real)
      requires IsSqrt(sqrt)
      modifies arrow`start, arrow`end, arrow`startPoint, arrow`endPoint, arrow`loopCenter, arrow`loopRadius
      modifies arrow`isSelfLoop, arrow`isCurved, arrow`curveOffset, arrow`cp1, arrow`cp2
      ensures arrow.start == originalTarget && arrow.end == originalSource
    {
      arrow.SetNodes(originalTarget, originalSource, env, sqrt);
    }

    method Undo(env: LegacyArrows.Surroundings, sqrt: real -> real)
      requires IsSqrt(sqrt)
      modifies arrow`start, arrow`end, arrow`startPoint, arrow`endPoint, arrow`loopCenter, arrow`loopRadius
      modifies arrow`isSelfLoop, arrow`isCurved, arrow`curveOffset, arrow`cp1, arrow`cp2
      ensures arrow.start == originalSource && arrow.end == originalTarget
    {
      arrow.SetNodes(originalSource, originalTarget, env, sqrt);
    }
  }

  /** Redoing a flip twice leaves the arrow reversed once, as a single redo does. */
  method FlipTwice(c: FlipArrowCommand, env: LegacyArrows.Surroundings, sqrt: real -> real)
    requires IsSqrt(sqrt)
    modifies c.arrow`start, c.arrow`end, c.arrow`startPoint, c.arrow`endPoint, c.arrow`loopCenter, c.arrow`loopRadius
    modifies c.arrow`isSelfLoop, c.arrow`isCurved, c.arrow`curveOffset, c.arrow`cp1, c.arrow`cp2
    ensures c.arrow.start == c.originalTarget && c.arrow.end == c.originalSource
  {
    c.Redo(env, sqrt);
    c.Redo(env, sqrt);
  }

  /** Making a flip, doing it and undoing it gives the arrow back its nodes. */
  method FlipAndUndo(arrow: Arrow, env: LegacyArrows.Surroundings, sqrt: real -> real) returns (c: FlipArrowCommand)
    requires IsSqrt(sqrt)
    modifies arrow`start, arrow`end, arrow`startPoint, arrow`endPoint, arrow`loopCenter, arrow`loopRadius
    modifies arrow`isSelfLoop, arrow`isCurved, arrow`curveOffset, arrow`cp1, arrow`cp2
    ensures c.arrow == arrow
    ensures arrow.start == old(arrow.start) && arrow.end == old(arrow.end)
  {
    c := new FlipArrowCommand(arrow);
    c.Redo(env, sqrt);
    c.Undo(env, sqrt);
  }

  function LinkOf(a: Arrow): Link<Arrow>
    reads a
  {
    Link(a, a.start, a.end)
  }

  /** The arrows of a scene with their current nodes, in scene order. */
  function LinksOf(arrows: seq<Arrow>): (ls: seq<Link<Arrow>>)
    reads arrows
    ensures |ls| == |arrows| && forall i :: 0 <= i < |arrows| ==> ls[i] == LinkOf(arrows[i])
  {
    if arrows == [] then [] else LinksOf(arrows[..|arrows| - 1]) + [LinkOf(arrows[|arrows| - 1])]
  }

  /** The arrow is connected to the nodes the link recorded. */
  predicate Attached(l: Link<Arrow>)
    reads l.arrow
  {
    l.arrow.start == l.source && l.arrow.end == l.target
  }

  /** What `DeleteItems` records about a selected item now: an Object's position, or an arrow's nodes. */
  function RecordOf(item: Item<Arrow>): Record<Arrow>
    reads if item.ObjectEntry? then {item.obj} else {}, if item.ArrowEntry? then {item.arrow} else {}
  {
    match item
    case ObjectEntry(o) => ObjectRecord(o, o.pos)
    case ArrowEntry(a) => ArrowRecord(LinkOf(a))
  }

  /** The first loop of the `DeleteItems` constructor: one record per selected item. */
  method CollectRecords(items: seq<Item<Arrow>>) returns (records: seq<Record<Arrow>>)
    ensures |records| == |items| && forall i :: 0 <= i < |items| ==> records[i] == RecordOf(items[i])
  {
    records := [];
    for i := 0 to |items|
      invariant |records| == i && forall k :: 0 <= k < i ==> records[k] == RecordOf(items[k])
    {
      match items[i]
      case ObjectEntry(o) =>
        records := records + [ObjectRecord(o, o.pos)];
      case ArrowEntry(a) =>
        var source := a.GetSource();
        var target := a.GetTarget();
        records := records + [ArrowRecord(Link(a, source, target))];
    }
  }

  /** The inner cascade loop: the scene's arrows touching `o` and not selected, in scene order. */
  method CollectTouching(o: ObjectNode, arrows: seq<Arrow>, items: seq<Item<Arrow>>) returns (t: seq<Link<Arrow>>)
    ensures t == TouchingOf(o, LinksOf(arrows), items)
  {
    ghost var links := LinksOf(arrows);
    t := [];
    for i := 0 to |arrows|
      invariant t == TouchingOf(o, links[..i], items)
    {
      var a := arrows[i];
      var source := a.GetSource();
      var target := a.GetTarget();
      TouchingPrefix(o, links, i, items);
      if (source == o || target == o) && ArrowEntry(a) !in items {
        t := t + [Link(a, source, target)];
      }
    }
    assert links[..|arrows|] == links;
  }

  /** The outer cascade loop, over the selected Objects in selection order. */
  method CollectCascade(items: seq<Item<Arrow>>, arrows: seq<Arrow>) returns (c: seq<Link<Arrow>>)
    ensures c == Cascade(items, LinksOf(arrows))
  {
    c := [];
    for i := 0 to |items|
      invariant c == CascadeFrom(items[..i], items, LinksOf(arrows))
    {
      assert items[..i + 1][..i] == items[..i];
      match items[i]
      case ObjectEntry(o) =>
        var t := CollectTouching(o, arrows, items);
        c := c + t;
      case ArrowEntry(_) =>
    }
    assert items[..|items|] == items;
  }

  /** Records and cascade taken from one state of the scene agree with each other. */
  lemma TakenTogether(items: seq<Item<Arrow>>, records: seq<Record<Arrow>>, arrows: seq<Arrow>, cascade: seq<Link<Arrow>>)
    requires |records| == |items| && forall i :: 0 <= i < |items| ==> records[i] == RecordOf(items[i])
    requires cascade == Cascade(items, LinksOf(arrows))
    ensures Consistent(records, cascade)
  {
    CascadeWithinScene(items, LinksOf(arrows));
    assert forall l :: l in cascade ==> l == LinkOf(l.arrow);
  }

  /** Every selected item has a record. */
  lemma RecordsCover(items: seq<Item<Arrow>>, records: seq<Record<Arrow>>)
    requires |records| == |items| && forall i :: 0 <= i < |items| ==> records[i] == RecordOf(items[i])
    ensures forall o :: ObjectEntry(o) in items ==> o in RecordedObjects(records)
    ensures forall a :: ArrowEntry(a) in items ==> a in RecordedArrows(records)
  {
    forall o | ObjectEntry(o) in items
      ensures o in RecordedObjects(records)
    {
      var i :| 0 <= i < |items| && items[i] == ObjectEntry(o);
      assert records[i] in records;
    }
    forall a | ArrowEntry(a) in items
      ensures a in RecordedArrows(records)
    {
      var i :| 0 <= i < |items| && items[i] == ArrowEntry(a);
      assert records[i] in records;
    }
  }

  /** `DeleteItems`: deletes the selected items, together with the arrows of the deleted Objects. */
  class DeleteItems {
    const scene: DiagramScene
    /** `item_data`: one record per selected item. */
    const records: seq<Record<Arrow>>
    /** `cascade_arrows`: the arrows that go with the deleted Objects, once per Object they touch. */
    const cascade: seq<Link<Arrow>>

    ghost predicate Valid()
    {
      Consistent(records, cascade)
    }

    /** Every arrow the command may reconnect. */
    function Arrows(): set<Arrow>
    {
      RecordedArrows(records) + ArrowsOf(cascade)
    }

    constructor(scene: DiagramScene, items: seq<Item<Arrow>>)
      ensures this.scene == scene
      ensures |records| == |items| && forall i :: 0 <= i < |items| ==> records[i] == RecordOf(items[i])
      ensures cascade == Cascade(items, LinksOf(scene.arrows))
      ensures Valid()
    {
      var rs := CollectRecords(items);
      var cs := CollectCascade(items, scene.arrows);
      TakenTogether(items, rs, scene.arrows, cs);
      this.scene, records, cascade := scene, rs, cs;
    }

    /** Removes the cascade arrows, then the selected items, each only if the scene still holds it. */
    method Redo()
      modifies scene`objects, scene`arrows
      ensures scene.objects == Without(old(scene.objects), RecordedObjects(records))
      ensures scene.arrows == Without(old(scene.arrows), ArrowsOf(cascade) + RecordedArrows(records))
    {
      RemoveCascade();
      RemoveSelected();
      WithoutBoth(old(scene.arrows), ArrowsOf(cascade), RecordedArrows(records));
    }

    method RemoveCascade()
      modifies scene`arrows
      ensures scene.arrows == Without(old(scene.arrows), ArrowsOf(cascade))
    {
      WithoutNothing(scene.arrows);
      assert ArrowsOf(cascade[..0]) == {};
      for i := 0 to |cascade|
        invariant scene.arrows == Without(old(scene.arrows), ArrowsOf(cascade[..i]))
      {
        var a := cascade[i].arrow;
        ArrowsOfPrefix(cascade, i);
        RemoveArrowAlso(scene, a, old(scene.arrows), ArrowsOf(cascade[..i]));
      }
      assert cascade[..|cascade|] == cascade;
    }

    method RemoveSelected()
      modifies scene`objects, scene`arrows
      ensures scene.objects == Without(old(scene.objects), RecordedObjects(records))
      ensures scene.arrows == Without(old(scene.arrows), RecordedArrows(records))
    {
      WithoutNothing(scene.objects);
      WithoutNothing(scene.arrows);
      assert RecordedObjects(records[..0]) == {} && RecordedArrows(records[..0]) == {};
      for i := 0 to |records|
        invariant scene.objects == Without(old(scene.objects), RecordedObjects(records[..i]))
        invariant scene.arrows == Without(old(scene.arrows), RecordedArrows(records[..i]))
      {
        RecordedPrefix(records, i);
        match records[i]
        case ObjectRecord(o, _) =>
          assert RecordedObjects(records[..i + 1]) == RecordedObjects(records[..i]) + {o};
          assert RecordedArrows(records[..i + 1]) == RecordedArrows(records[..i]);
          RemoveObjectAlso(scene, o, old(scene.objects), RecordedObjects(records[..i]));
        case ArrowRecord(l) =>
          assert RecordedObjects(records[..i + 1]) == RecordedObjects(records[..i]);
          assert RecordedArrows(records[..i + 1]) == RecordedArrows(records[..i]) + {l.arrow};
          RemoveArrowAlso(scene, l.arrow, old(scene.arrows), RecordedArrows(records[..i]));
      }
      assert records[..|records|] == records;
    }

    /** The recorded objects among the first `n` records stand at their recorded positions. */
    ghost predicate SelectedPlaced(n: int)
      reads RecordedObjects(records)
    {
      forall k :: 0 <= k < n && k < |records| && records[k].ObjectRecord? ==> records[k].obj.pos == records[k].position
    }

    /** The recorded arrows among the first `n` records are on their recorded nodes. */
    ghost predicate SelectedAttached(n: int)
      reads Arrows()
    {
      forall k :: 0 <= k < n && k < |records| && records[k].ArrowRecord? ==> Attached(records[k].link)
    }

    /** The first `n` cascade arrows are on their recorded nodes. */
    ghost predicate CascadeAttached(n: int)
      reads Arrows()
    {
      forall k :: 0 <= k < n && k < |cascade| ==> Attached(cascade[k])
    }

    /**
     * Puts back every recorded item, then every cascade arrow: every
     * Object at its recorded position, every arrow onto its recorded nodes.
     * `layout` gives the geometry each arrow is placed with.
     */
    method Undo(layout: Arrow -> LegacyArrows.Surroundings, sqrt: real -> real)
      requires IsSqrt(sqrt) && Valid()
      modifies scene`objects, scene`arrows, RecordedObjects(records)`pos
      modifies Arrows()`start, Arrows()`end, Arrows()`startPoint, Arrows()`endPoint, Arrows()`loopCenter
      modifies Arrows()`loopRadius, Arrows()`isSelfLoop, Arrows()`isCurved, Arrows()`curveOffset
      modifies Arrows()`cp1, Arrows()`cp2
      ensures Members(scene.objects) == Members(old(scene.objects)) + RecordedObjects(records)
      ensures Members(scene.arrows) == Members(old(scene.arrows)) + Arrows()
      ensures SelectedPlaced(|records|) && SelectedAttached(|records|) && CascadeAttached(|cascade|)
    {
      RestoreSelected(layout, sqrt);
      RestoreCascade(layout, sqrt);
    }

    method RestoreSelected(layout: Arrow -> LegacyArrows.Surroundings, sqrt: real -> real)
      requires IsSqrt(sqrt) && Valid()
      modifies scene`objects, scene`arrows, RecordedObjects(records)`pos
      modifies Arrows()`start, Arrows()`end, Arrows()`startPoint, Arrows()`endPoint, Arrows()`loopCenter
      modifies Arrows()`loopRadius, Arrows()`isSelfLoop, Arrows()`isCurved, Arrows()`curveOffset
      modifies Arrows()`cp1, Arrows()`cp2
      ensures Members(scene.objects) == Members(old(scene.objects)) + RecordedObjects(records)
      ensures Members(scene.arrows) == Members(old(scene.arrows)) + RecordedArrows(records)
      ensures SelectedPlaced(|records|) && SelectedAttached(|records|)
    {
      assert RecordedObjects(records[..0]) == {} && RecordedArrows(records[..0]) == {};
      for i := 0 to |records|
        invariant Members(scene.objects) == Members(old(scene.objects)) + RecordedObjects(records[..i])
        invariant Members(scene.arrows) == Members(old(scene.arrows)) + RecordedArrows(records[..i])
        invariant SelectedPlaced(i) && SelectedAttached(i)
      {
        RecordedPrefix(records, i);
        RestoreRecord(i, layout, sqrt);
      }
      assert records[..|records|] == records;
    }

    /** Puts back the item of record `i`: an Object at its position, an arrow onto its nodes. */
    method RestoreRecord(i: int, layout: Arrow -> LegacyArrows.Surroundings, sqrt: real -> real)
      requires 0 <= i < |records| && IsSqrt(sqrt) && Valid() && SelectedPlaced(i) && SelectedAttached(i)
      modifies scene`objects, scene`arrows, RecordedObjects(records)`pos
      modifies Arrows()`start, Arrows()`end, Arrows()`startPoint, Arrows()`endPoint, Arrows()`loopCenter
      modifies Arrows()`loopRadius, Arrows()`isSelfLoop, Arrows()`isCurved, Arrows()`curveOffset
      modifies Arrows()`cp1, Arrows()`cp2
      ensures Members(scene.objects) == Members(old(scene.objects)) + (if records[i].ObjectRecord? then {records[i].obj} else {})
      ensures Members(scene.arrows) == Members(old(scene.arrows)) + (if records[i].ArrowRecord? then {records[i].link.arrow} else {})
      ensures SelectedPlaced(i + 1) && SelectedAttached(i + 1)
    {
      if records[i].ObjectRecord? {
        RestoreObject(i);
      } else {
        RestoreArrow(i, layout, sqrt);
      }
    }

    /** Puts Object record `i`'s object back into the scene at its recorded position. */
    method RestoreObject(i: int)
      requires 0 <= i < |records| && records[i].ObjectRecord? && Valid() && SelectedPlaced(i) && SelectedAttached(i)
      modifies scene`objects, records[i].obj`pos
      ensures Members(scene.objects) == Members(old(scene.objects)) + {records[i].obj}
      ensures SelectedPlaced(i + 1) && SelectedAttached(i + 1)
    {
      var o, p := records[i].obj, records[i].position;
      AddedMembers(scene.objects, o);
      AddObject(scene, o);
      o.SetPos(p);
      forall k | 0 <= k < i + 1 && records[k].ObjectRecord?
        ensures records[k].obj.pos == records[k].position
      {
        assert RecordsAgree(records[k], records[i]);
      }
    }

    /** Puts arrow record `i`'s arrow back into the scene and onto its recorded nodes. */
    method RestoreArrow(i: int, layout: Arrow -> LegacyArrows.Surroundings, sqrt: real -> real)
      requires 0 <= i < |records| && records[i].ArrowRecord? && IsSqrt(sqrt) && Valid()
      requires SelectedPlaced(i) && SelectedAttached(i)
      modifies scene`arrows
      modifies Arrows()`start, Arrows()`end, Arrows()`startPoint, Arrows()`endPoint, Arrows()`loopCenter
      modifies Arrows()`loopRadius, Arrows()`isSelfLoop, Arrows()`isCurved, Arrows()`curveOffset
      modifies Arrows()`cp1, Arrows()`cp2
      ensures Members(scene.arrows) == Members(old(scene.arrows)) + {records[i].link.arrow}
      ensures SelectedPlaced(i + 1) && SelectedAttached(i + 1)
    {
      var l := records[i].link;
      assert records[i] in records;
      AddedMembers(scene.arrows, l.arrow);
      AddArrow(scene, l.arrow);
      l.arrow.SetNodes(l.source, l.target, layout(l.arrow), sqrt);
      forall k | 0 <= k < i + 1 && records[k].ArrowRecord?
        ensures Attached(records[k].link)
      {
        assert RecordsAgree(records[k], records[i]);
      }
    }

    method RestoreCascade(layout: Arrow -> LegacyArrows.Surroundings, sqrt: real -> real)
      requires IsSqrt(sqrt) && Valid() && SelectedAttached(|records|)
      modifies scene`arrows
      modifies Arrows()`start, Arrows()`end, Arrows()`startPoint, Arrows()`endPoint, Arrows()`loopCenter
      modifies Arrows()`loopRadius, Arrows()`isSelfLoop, Arrows()`isCurved, Arrows()`curveOffset
      modifies Arrows()`cp1, Arrows()`cp2
      ensures Members(scene.arrows) == Members(old(scene.arrows)) + ArrowsOf(cascade)
      ensures SelectedAttached(|records|) && CascadeAttached(|cascade|)
    {
      assert ArrowsOf(cascade[..0]) == {};
      for i := 0 to |cascade|
        invariant Members(scene.arrows) == Members(old(scene.arrows)) + ArrowsOf(cascade[..i])
        invariant SelectedAttached(|records|) && CascadeAttached(i)
      {
        ArrowsOfPrefix(cascade, i);
        RestoreLink(i, layout, sqrt);
      }
      assert cascade[..|cascade|] == cascade;
    }

    /** Puts back cascade arrow `i` onto its recorded nodes. */
    method RestoreLink(i: int, layout: Arrow -> LegacyArrows.Surroundings, sqrt: real -> real)
      requires 0 <= i < |cascade| && IsSqrt(sqrt) && Valid() && SelectedAttached(|records|) && CascadeAttached(i)
      modifies scene`arrows
      modifies Arrows()`start, Arrows()`end, Arrows()`startPoint, Arrows()`endPoint, Arrows()`loopCenter
      modifies Arrows()`loopRadius, Arrows()`isSelfLoop, Arrows()`isCurved, Arrows()`curveOffset
      modifies Arrows()`cp1, Arrows()`cp2
      ensures Members(scene.arrows) == Members(old(scene.arrows)) + {cascade[i].arrow}
      ensures SelectedAttached(|records|) && CascadeAttached(i + 1)
    {
      var l := cascade[i];
      assert l in cascade;
      AddedMembers(scene.arrows, l.arrow);
      AddArrow(scene, l.arrow);
      l.arrow.SetNodes(l.source, l.target, layout(l.arrow), sqrt);
      forall k | 0 <= k < i + 1
        ensures Attached(cascade[k])
      {
        assert LinksAgree(cascade[k], cascade[i]);
      }
      forall k | 0 <= k < |records| && records[k].ArrowRecord?
        ensures Attached(records[k].link)
      {
        assert LinksAgree(records[k].link, cascade[i]);
      }
    }
  }

  /**
   * Deleting a selection, as the command does when it is first pushed: no
   * selected item stays in the scene, and no arrow left in the scene starts
   * or ends at a deleted Object.
   */
  method DeleteSelection(scene: DiagramScene, items: seq<Item<Arrow>>) returns (cmd: DeleteItems)
    modifies scene`objects, scene`arrows
    ensures fresh(cmd) && cmd.scene == scene && cmd.Valid()
    ensures forall o :: ObjectEntry(o) in items ==> o !in scene.objects
    ensures forall a :: ArrowEntry(a) in items ==> a !in scene.arrows
    ensures forall a, o :: a in scene.arrows && ObjectEntry(o) in items ==> a.start != o && a.end != o
  {
    ghost var arrows := scene.arrows;
    cmd := new DeleteItems(scene, items);
    RecordsCover(items, cmd.records);
    ghost var gone := ArrowsOf(cmd.cascade) + RecordedArrows(cmd.records);
    cmd.Redo();
    forall o | ObjectEntry(o) in items
      ensures o !in scene.objects
    {
      WithoutMembers(old(scene.objects), RecordedObjects(cmd.records), o);
    }
    forall a | ArrowEntry(a) in items
      ensures a !in scene.arrows
    {
      WithoutMembers(arrows, gone, a);
    }
    forall a, o | a in scene.arrows && ObjectEntry(o) in items
      ensures a.start != o && a.end != o
    {
      WithoutMembers(arrows, gone, a);
      var k :| 0 <= k < |arrows| && arrows[k] == a;
      var l := LinkOf(a);
      assert l == LinksOf(arrows)[k];
      assert l !in cmd.cascade;
      CascadeMembers(items, LinksOf(arrows), l);
      TouchCountPositive(items, l, o);
    }
  }

  /**
   * Making a `DeleteItems` for items the scene holds and doing it: what the
   * command recorded is what the scene held, with the positions and nodes
   * it had, and the scene has lost exactly the recorded items and the cascade.
   */
  method DeleteHeld(scene: DiagramScene, items: seq<Item<Arrow>>) returns (cmd: DeleteItems)
    requires forall o :: ObjectEntry(o) in items ==> o in scene.objects
    requires forall a :: ArrowEntry(a) in items ==> a in scene.arrows
    modifies scene`objects, scene`arrows
    ensures fresh(cmd) && cmd.scene == scene && cmd.Valid()
    ensures forall k :: 0 <= k < |cmd.records| && cmd.records[k].ObjectRecord? ==>
      cmd.records[k].obj in old(scene.objects) && cmd.records[k].position == (var o := cmd.records[k].obj; old(o.pos))
    ensures forall k :: 0 <= k < |cmd.records| && cmd.records[k].ArrowRecord? ==>
      cmd.records[k].link.arrow in old(scene.arrows) && cmd.records[k].link == (var a := cmd.records[k].link.arrow; old(LinkOf(a)))
    ensures forall l :: l in cmd.cascade ==> l.arrow in old(scene.arrows) && l == (var a := l.arrow; old(LinkOf(a)))
    ensures RecordedObjects(cmd.records) <= old(Members(scene.objects))
    ensures cmd.Arrows() <= old(Members(scene.arrows))
    ensures scene.objects == Without(old(scene.objects), RecordedObjects(cmd.records))
    ensures scene.arrows == Without(old(scene.arrows), ArrowsOf(cmd.cascade) + RecordedArrows(cmd.records))
  {
    ghost var links := LinksOf(scene.arrows);
    cmd := new DeleteItems(scene, items);
    assert cmd.cascade == Cascade(items, links);
    CascadeWithinScene(items, links);
    ghost var records, cascade := cmd.records, cmd.cascade;
    forall k | 0 <= k < |records|
      ensures records[k].ObjectRecord? ==> records[k].obj in scene.objects && records[k].position == old(records[k].obj.pos)
      ensures records[k].ArrowRecord? ==> records[k].link.arrow in scene.arrows && records[k].link == old(LinkOf(records[k].link.arrow))
    {
      assert items[k] in items;
    }
    forall l | l in cascade
      ensures l.arrow in scene.arrows && l == old(LinkOf(l.arrow))
    {
      var k :| 0 <= k < |links| && links[k] == l;
    }
    assert RecordedObjects(records) <= Members(scene.objects);
    assert cmd.Arrows() <= Members(scene.arrows);
    cmd.Redo();
  }

  /**
   * A deletion of items the scene holds, done and then undone: the scene
   * holds the same Objects and arrows again, every arrow is on the nodes it
   * had and every Object at the position it had.
   */
  method DeleteItemsAndUndo(scene: DiagramScene, items: seq<Item<Arrow>>, layout: Arrow -> LegacyArrows.Surroundings, sqrt: real -> real)
    returns (cmd: DeleteItems)
    requires IsSqrt(sqrt)
    requires forall o :: ObjectEntry(o) in items ==> o in scene.objects
    requires forall a :: ArrowEntry(a) in items ==> a in scene.arrows
    modifies scene`objects, scene`arrows, Members(scene.objects)`pos
    modifies Members(scene.arrows)`start, Members(scene.arrows)`end, Members(scene.arrows)`startPoint
    modifies Members(scene.arrows)`endPoint, Members(scene.arrows)`loopCenter, Members(scene.arrows)`loopRadius
    modifies Members(scene.arrows)`isSelfLoop, Members(scene.arrows)`isCurved, Members(scene.arrows)`curveOffset
    modifies Members(scene.arrows)`cp1, Members(scene.arrows)`cp2
    ensures Members(scene.objects) == old(Members(scene.objects))
    ensures Members(scene.arrows) == old(Members(scene.arrows))
    ensures forall a :: a in old(scene.arrows) ==> a.start == old(a.start) && a.end == old(a.end)
    ensures forall o :: o in old(scene.objects) ==> o.pos == old(o.pos)
  {
    ghost var objects, arrows := scene.objects, scene.arrows;
    cmd := DeleteHeld(scene, items);
    ghost var records, cascade := cmd.records, cmd.cascade;
    cmd.Undo(layout, sqrt);
    WithoutMembersSet(objects, RecordedObjects(records));
    ghost var gone: set<Arrow> := ArrowsOf(cascade) + RecordedArrows(records);
    WithoutMembersSet(arrows, gone);
    assert gone == cmd.Arrows();
    forall a | a in arrows
      ensures a.start == old(a.start) && a.end == old(a.end)
    {
      if a in RecordedArrows(records) {
        var k :| 0 <= k < |records| && records[k].ArrowRecord? && records[k].link.arrow == a;
      } else if a in ArrowsOf(cascade) {
        var k :| 0 <= k < |cascade| && cascade[k].arrow == a;
      }
    }
    forall o | o in objects
      ensures o.pos == old(o.pos)
    {
      if o in RecordedObjects(records) {
        var k :| 0 <= k < |records| && records[k].ObjectRecord? && records[k].obj == o;
      }
    }
  }

}
