/**
 * The older arrow (`arrow.py`), still used by the root scene and undo
 * commands. Its parallel arrows are found by node pair rather than by
 * geometry: every arrow joining the same two distinct objects, in either
 * direction. Placement, Bézier control points and self-loops use the same
 * formulas as the current arrow, from module Routing.
 */
module LegacyArrows {
  import opened Wrappers
  import opened Geometry
  import opened Nodes
  import opened Routing

  /**
   * What the arrow's methods look up around it: the arrows of its scene, if
   * it is in one; the size of the source node and the objects counted beside
   * each of its sides, if that node is in a scene; and the boundaries of
   * both nodes, flattened into segments.
   */
  datatype Surroundings = Surroundings(
    arrows: Option<seq<Arrow>>,
    width: real, height: real,
    sides: Option<SideCounts>,
    startBoundary: seq<Segment>, endBoundary: seq<Segment>)

  /** What `paint` draws. */
  datatype Drawing = NothingDrawn | LoopDrawing | CurveDrawing | LineDrawing

  /** An arrow together with the two nodes it is attached to at one moment. */
  datatype Ends = Ends(arrow: Arrow, start: ObjectNode?, end: ObjectNode?)

  function EndsOf(a: Arrow): (e: Ends)
    reads a`start, a`end
    ensures e.arrow == a
  {
    Ends(a, a.start, a.end)
  }

  function EndsIn(s: seq<Arrow>): (es: seq<Ends>)
    reads s`start, s`end
    ensures |es| == |s| && forall i :: 0 <= i < |s| ==> es[i] == EndsOf(s[i])
  {
    if s == [] then [] else EndsIn(s[..|s| - 1]) + [EndsOf(s[|s| - 1])]
  }

  function SceneArrows(scene: Option<seq<Arrow>>): seq<Arrow>
  {
    if scene.Some? then scene.value else []
  }

  function SceneEnds(scene: Option<seq<Arrow>>): (r: Option<seq<Ends>>)
    reads SceneArrows(scene)`start, SceneArrows(scene)`end
    ensures r.Some? <==> scene.Some?
  {
    if scene.Some? then Some(EndsIn(scene.value)) else None
  }

  /** The ends of `s` stay the same while no arrow of `s` changes nodes. */
  twostate lemma EndsKept(s: seq<Arrow>)
    requires forall a :: a in s ==> old(a.start) == a.start && old(a.end) == a.end
    ensures EndsIn(s) == old(EndsIn(s))
  {
    forall i | 0 <= i < |s|
      ensures EndsIn(s)[i] == old(EndsIn(s))[i]
    {
      assert s[i] in s;
    }
  }

  // ---------------------------------------------------------------- parallel sets

  /** `e` joins the two objects `x` and `y`, in either direction, and is not a self-loop. */
  predicate Links(e: Ends, x: ObjectNode?, y: ObjectNode?)
  {
    e.start != null && e.end != null && e.start != e.end
    && (e.start == x || e.start == y) && (e.end == x || e.end == y)
  }

  /** The arrows of `s` joining `x` and `y`, in scene order. */
  function LinksIn(s: seq<Ends>, x: ObjectNode?, y: ObjectNode?): (r: seq<Arrow>)
    ensures forall i :: 0 <= i < |s| && Links(s[i], x, y) ==> s[i].arrow in r
    ensures |r| <= |s|
  {
    if s == [] then []
    else
      var last := s[|s| - 1];
      assert forall i :: 0 <= i < |s| - 1 ==> s[..|s| - 1][i] == s[i];
      LinksIn(s[..|s| - 1], x, y) + (if Links(last, x, y) then [last.arrow] else [])
  }

  /** The entry of `s` that the `k`-th arrow of `LinksIn(s, x, y)` comes from. */
  lemma {:induction false} LinksInSource(s: seq<Ends>, x: ObjectNode?, y: ObjectNode?, k: nat) returns (i: nat)
    requires k < |LinksIn(s, x, y)|
    ensures i < |s| && Links(s[i], x, y) && s[i].arrow == LinksIn(s, x, y)[k]
  {
    var init := s[..|s| - 1];
    var last := s[|s| - 1];
    var r0 := LinksIn(init, x, y);
    assert LinksIn(s, x, y) == r0 + (if Links(last, x, y) then [last.arrow] else []);
    if k < |r0| {
      i := LinksInSource(init, x, y, k);
      assert s[i] == init[i];
    } else {
      i := |s| - 1;
    }
  }

  /** `a` is the arrow of an entry of `s` joining `x` and `y`. */
  predicate LinkedIn(s: seq<Ends>, x: ObjectNode?, y: ObjectNode?, a: Arrow)
  {
    exists i :: 0 <= i < |s| && Links(s[i], x, y) && s[i].arrow == a
  }

  /** Every arrow `LinksIn` returns comes from an entry of `s` joining `x` and `y`. */
  lemma LinksInFromScene(s: seq<Ends>, x: ObjectNode?, y: ObjectNode?)
    ensures forall k :: 0 <= k < |LinksIn(s, x, y)| ==> LinkedIn(s, x, y, LinksIn(s, x, y)[k])
  {
    forall k | 0 <= k < |LinksIn(s, x, y)|
      ensures LinkedIn(s, x, y, LinksIn(s, x, y)[k])
    {
      var i := LinksInSource(s, x, y, k);
    }
  }

  /**
   * `_get_parallel_set`: just the arrow itself when there is no scene, an
   * end is missing or the arrow is a self-loop; otherwise every arrow of
   * the scene joining its two objects, itself included.
   */
  function ParallelSet(me: Ends, scene: Option<seq<Ends>>): seq<Arrow>
  {
    if scene.None? || me.start == null || me.end == null || me.start == me.end then [me.arrow]
    else LinksIn(scene.value, me.start, me.end)
  }

  /** The entries of `s` other than `me`. */
  function Without(s: seq<Arrow>, me: Arrow): (r: seq<Arrow>)
    ensures forall k :: 0 <= k < |r| ==> r[k] in s && r[k] != me
    ensures forall i :: 0 <= i < |s| && s[i] != me ==> s[i] in r
    ensures |r| <= |s|
  {
    if s == [] then []
    else (if s[0] != me then [s[0]] else []) + Without(s[1..], me)
  }

  /** `_find_parallel_arrows`: none without a scene or an end, else the parallel set without the arrow. */
  function ParallelArrows(me: Ends, scene: Option<seq<Ends>>): seq<Arrow>
  {
    if scene.None? || me.start == null || me.end == null then []
    else Without(ParallelSet(me, scene), me.arrow)
  }

  /** `_are_parallel`: `other` has both ends and the two parallel sets are equal with more than one arrow. */
  predicate AreParallelIn(me: Ends, other: Ends, scene: Option<seq<Ends>>)
  {
    other.start != null && other.end != null
    && (set a | a in ParallelSet(me, scene)) == (set a | a in ParallelSet(other, scene))
    && |set a | a in ParallelSet(me, scene)| > 1
  }

  /** Outside a scene, without both ends, or for a self-loop, the parallel set is the arrow alone. */
  lemma LoneSet(me: Ends, scene: Option<seq<Ends>>)
    ensures scene.None? || me.start == null || me.end == null || me.start == me.end ==>
      (set a | a in ParallelSet(me, scene)) == {me.arrow}
  {
  }

  /** Being parallel is symmetric. */
  lemma AreParallelSymmetric(a: Ends, b: Ends, scene: Option<seq<Ends>>)
    requires AreParallelIn(a, b, scene)
    ensures AreParallelIn(b, a, scene)
  {
    LoneSet(a, scene);
  }

  /** An arrow joining `x` and `y` joins exactly the objects `x` and `y`. */
  lemma LinkEnds(c: Ends, x: ObjectNode?, y: ObjectNode?)
    requires Links(c, x, y) && x != y
    ensures {c.start, c.end} == {x, y}
  {
  }

  /** The scene records each arrow with one pair of ends, as every snapshot `EndsIn` does. */
  predicate Consistent(s: seq<Ends>)
  {
    forall i, j :: 0 <= i < |s| && 0 <= j < |s| && s[i].arrow == s[j].arrow ==> s[i] == s[j]
  }

  lemma SnapshotConsistent(s: seq<Arrow>)
    ensures Consistent(EndsIn(s))
  {
  }

  /** Parallel arrows join the same two objects, whichever way each points. */
  lemma ParallelMeansSamePair(a: Ends, b: Ends, scene: Option<seq<Ends>>)
    requires scene.Some? && Consistent(scene.value)
    requires AreParallelIn(a, b, scene)
    ensures a.start != null && a.end != null && a.start != a.end
    ensures b.start != null && b.end != null && b.start != b.end
    ensures {a.start, a.end} == {b.start, b.end}
  {
    LoneSet(a, scene);
    LoneSet(b, scene);
    var sa := set x | x in ParallelSet(a, scene);
    assert sa != {} by {
      assert |sa| > 1;
    }
    var c :| c in sa;
    var s := scene.value;
    LinksInFromScene(s, a.start, a.end);
    LinksInFromScene(s, b.start, b.end);
    var ka :| 0 <= ka < |ParallelSet(a, scene)| && ParallelSet(a, scene)[ka] == c;
    var i :| 0 <= i < |s| && Links(s[i], a.start, a.end) && s[i].arrow == c;
    assert c in ParallelSet(b, scene);
    var kb :| 0 <= kb < |ParallelSet(b, scene)| && ParallelSet(b, scene)[kb] == c;
    var j :| 0 <= j < |s| && Links(s[j], b.start, b.end) && s[j].arrow == c;
    var ea, eb := s[i], s[j];
    assert ea == eb;
    LinkEnds(ea, a.start, a.end);
    LinkEnds(eb, b.start, b.end);
  }

  /** Each arrow appears at most once in the scene. */
  predicate OneEntryEach(s: seq<Ends>)
  {
    forall i, j :: 0 <= i < j < |s| ==> s[i].arrow != s[j].arrow
  }

  predicate DistinctKeys(s: seq<Ends>)
  {
    forall i, j :: 0 <= i < j < |s| ==> s[i].arrow.key != s[j].arrow.key
  }

  /** Two sets holding two distinct elements have more than one element. */
  lemma TwoElements(s: set<Arrow>, a: Arrow, b: Arrow)
    requires a in s && b in s && a != b
    ensures |s| > 1
  {
    assert {a, b} <= s;
    assert |s - {a}| >= 1 by {
      assert b in s - {a};
    }
  }

  /** `LinksIn` depends only on the pair of objects, not on their order. */
  lemma {:induction false} LinksInSamePair(s: seq<Ends>, x: ObjectNode?, y: ObjectNode?, x2: ObjectNode?, y2: ObjectNode?)
    requires {x, y} == {x2, y2}
    ensures LinksIn(s, x, y) == LinksIn(s, x2, y2)
  {
    if s != [] {
      LinksInSamePair(s[..|s| - 1], x, y, x2, y2);
      var last := s[|s| - 1];
      assert Links(last, x, y) == Links(last, x2, y2) by {
        assert x in {x2, y2} && y in {x2, y2} && x2 in {x, y} && y2 in {x, y};
      }
    }
  }

  /**
   * Conversely, two distinct arrows of the scene joining the same two
   * distinct objects are parallel, whichever way each points.
   */
  lemma SamePairAreParallel(a: Ends, b: Ends, scene: Option<seq<Ends>>)
    requires scene.Some? && a in scene.value && b in scene.value && a.arrow != b.arrow
    requires a.start != null && a.end != null && a.start != a.end
    requires Links(b, a.start, a.end)
    ensures AreParallelIn(a, b, scene)
  {
    LinkEnds(b, a.start, a.end);
    LinksInSamePair(scene.value, a.start, a.end, b.start, b.end);
    assert Links(a, a.start, a.end);
    assert a.arrow in ParallelSet(a, scene) && b.arrow in ParallelSet(a, scene);
    var group := set x | x in ParallelSet(a, scene);
    TwoElements(group, a.arrow, b.arrow);
  }

  // ---------------------------------------------------------------- curve offsets

  /** How many arrows of `s` have a smaller key: `key`'s place once `s` is sorted by key. */
  function CountBelow(key: int, s: seq<Arrow>): (n: nat)
    ensures n <= |s|
  {
    if s == [] then 0
    else (if s[0].key < key then 1 else 0) + CountBelow(key, s[1..])
  }

  /**
   * `_update_curve_positioning`: straight (None) without parallel arrows;
   * otherwise the offset of the arrow's place among itself and its
   * parallels, sorted by key.
   */
  function PlannedOffset(me: Ends, scene: Option<seq<Ends>>): Option<real>
  {
    var ps := ParallelArrows(me, scene);
    if ps == [] then None
    else
      assert CountBelow(me.arrow.key, [me.arrow] + ps) == CountBelow(me.arrow.key, ps) by {
        assert ([me.arrow] + ps)[1..] == ps;
      }
      Some(GroupOffset(CountBelow(me.arrow.key, [me.arrow] + ps), |ps| + 1))
  }

  predicate NoDuplicates(s: seq<Arrow>)
  {
    forall i, j :: 0 <= i < j < |s| ==> s[i] != s[j]
  }

  lemma {:induction false} LinksInNoDuplicates(s: seq<Ends>, x: ObjectNode?, y: ObjectNode?)
    requires OneEntryEach(s)
    ensures NoDuplicates(LinksIn(s, x, y))
  {
    if s != [] {
      var init := s[..|s| - 1];
      assert OneEntryEach(init) by {
        forall i, j | 0 <= i < j < |init|
          ensures init[i].arrow != init[j].arrow
        {
          assert init[i] == s[i] && init[j] == s[j];
        }
      }
      LinksInNoDuplicates(init, x, y);
      LinksInFromScene(init, x, y);
      var last := s[|s| - 1];
      assert last.arrow !in LinksIn(init, x, y) by {
        forall i | 0 <= i < |init|
          ensures init[i].arrow != last.arrow
        {
          assert init[i] == s[i];
        }
      }
    }
  }

  /** Dropping an arrow that occurs once shortens the sequence by one and leaves the other keys' counts. */
  lemma {:induction false} WithoutOnce(s: seq<Arrow>, me: Arrow, key: int)
    requires NoDuplicates(s) && me in s
    ensures |Without(s, me)| == |s| - 1
    ensures CountBelow(key, Without(s, me)) == CountBelow(key, s) - (if me.key < key then 1 else 0)
  {
    var rest := s[1..];
    assert Without(s, me) == (if s[0] != me then [s[0]] else []) + Without(rest, me);
    assert NoDuplicates(rest) by {
      forall i, j | 0 <= i < j < |rest|
        ensures rest[i] != rest[j]
      {
        assert rest[i] == s[i + 1] && rest[j] == s[j + 1];
      }
    }
    if s[0] == me {
      assert me !in rest by {
        forall i | 0 <= i < |rest|
          ensures rest[i] != me
        {
          assert rest[i] == s[i + 1];
        }
      }
      WithoutAbsent(rest, me);
      assert Without(s, me) == rest;
      assert CountBelow(key, s) == (if me.key < key then 1 else 0) + CountBelow(key, rest);
    } else {
      WithoutOnce(rest, me, key);
      var w := Without(rest, me);
      assert ([s[0]] + w)[1..] == w;
    }
  }

  lemma {:induction false} WithoutAbsent(s: seq<Arrow>, me: Arrow)
    requires me !in s
    ensures Without(s, me) == s
  {
    if s != [] {
      WithoutAbsent(s[1..], me);
    }
  }

  /** An arrow of `s` whose key lies in [k1, k2) puts `k2` strictly after `k1` in key order. */
  lemma {:induction false} CountBelowGrows(s: seq<Arrow>, c: Arrow, k1: int, k2: int)
    requires c in s && k1 <= c.key < k2
    ensures CountBelow(k1, s) < CountBelow(k2, s)
  {
    if s[0] == c {
      CountBelowMonotone(s[1..], k1, k2);
    } else {
      CountBelowGrows(s[1..], c, k1, k2);
    }
  }

  lemma {:induction false} CountBelowMonotone(s: seq<Arrow>, k1: int, k2: int)
    requires k1 <= k2
    ensures CountBelow(k1, s) <= CountBelow(k2, s)
  {
    if s != [] {
      CountBelowMonotone(s[1..], k1, k2);
    }
  }

  /** Within a group `p` of parallel arrows, an arrow's offset is given by its key's place in `p`. */
  lemma OffsetInGroup(me: Ends, scene: Option<seq<Ends>>, p: seq<Arrow>)
    requires scene.Some? && me.start != null && me.end != null
    requires ParallelSet(me, scene) == p && NoDuplicates(p) && me.arrow in p && |p| > 1
    ensures CountBelow(me.arrow.key, p) < |p|
    ensures PlannedOffset(me, scene) == Some(GroupOffset(CountBelow(me.arrow.key, p), |p|))
  {
    WithoutOnce(p, me.arrow, me.arrow.key);
    var ps := Without(p, me.arrow);
    assert ([me.arrow] + ps)[1..] == ps;
  }

  /** Two parallel arrows have the same parallel set, with no arrow twice. */
  lemma SharedGroup(a: Ends, b: Ends, scene: Option<seq<Ends>>) returns (p: seq<Arrow>)
    requires scene.Some? && OneEntryEach(scene.value)
    requires a in scene.value && b in scene.value && a.arrow != b.arrow
    requires AreParallelIn(a, b, scene)
    ensures ParallelSet(a, scene) == p && ParallelSet(b, scene) == p
    ensures NoDuplicates(p) && a.arrow in p && b.arrow in p && |p| > 1
    ensures a.start != null && a.end != null && b.start != null && b.end != null
  {
    assert Consistent(scene.value);
    ParallelMeansSamePair(a, b, scene);
    LinksInSamePair(scene.value, a.start, a.end, b.start, b.end);
    p := LinksIn(scene.value, a.start, a.end);
    LinksInNoDuplicates(scene.value, a.start, a.end);
    assert Links(a, a.start, a.end) && Links(b, a.start, a.end);
    var ia :| 0 <= ia < |scene.value| && scene.value[ia] == a;
    var ib :| 0 <= ib < |scene.value| && scene.value[ib] == b;
    assert a.arrow in p && b.arrow in p;
    var ka :| 0 <= ka < |p| && p[ka] == a.arrow;
    var kb :| 0 <= kb < |p| && p[kb] == b.arrow;
    assert ka != kb;
  }

  /**
   * In a scene whose arrows appear once each and have distinct keys, two
   * different parallel arrows are both curved and never share an offset.
   */
  lemma ParallelArrowsCurveApart(a: Ends, b: Ends, scene: Option<seq<Ends>>)
    requires scene.Some? && OneEntryEach(scene.value) && DistinctKeys(scene.value)
    requires a in scene.value && b in scene.value && a.arrow != b.arrow
    requires AreParallelIn(a, b, scene)
    ensures PlannedOffset(a, scene).Some? && PlannedOffset(b, scene).Some?
    ensures PlannedOffset(a, scene).value != PlannedOffset(b, scene).value
  {
    var p := SharedGroup(a, b, scene);
    OffsetInGroup(a, scene, p);
    OffsetInGroup(b, scene, p);
    assert a.arrow.key != b.arrow.key by {
      var i :| 0 <= i < |scene.value| && scene.value[i] == a;
      var j :| 0 <= j < |scene.value| && scene.value[j] == b;
      assert i != j;
    }
    if a.arrow.key < b.arrow.key {
      CountBelowGrows(p, a.arrow, a.arrow.key, b.arrow.key);
    } else {
      CountBelowGrows(p, b.arrow, b.arrow.key, a.arrow.key);
    }
    GroupOffsetInjective(CountBelow(a.arrow.key, p), CountBelow(b.arrow.key, p), |p|);
  }

  /** An arrow outside a scene, without both ends, or looping on one object stays straight. */
  lemma LoneArrowIsStraight(me: Ends, scene: Option<seq<Ends>>)
    requires scene.None? || me.start == null || me.end == null || me.start == me.end
    ensures PlannedOffset(me, scene).None?
  {
    if !(scene.None? || me.start == null || me.end == null) {
      assert ParallelSet(me, scene) == [me.arrow];
      assert Without([me.arrow], me.arrow) == [] + Without([], me.arrow);
    }
  }

  // ---------------------------------------------------------------- the arrow

  class Arrow {
    var start: ObjectNode?
    var end: ObjectNode?
    /** Stands for `id(self)` when arrows are sorted. */
    const key: int
    var startPoint: Point
    var endPoint: Point
    var isSelfLoop: bool
    var loopCenter: Point
    var loopRadius: real
    var isCurved: bool
    var curveOffset: real
    var cp1: Point
    var cp2: Point
    var text: string

    /**
     * `Arrow(start_node, end_node, text)`: placed between its nodes, outside
     * any scene, so straight. The nodes default to none and the text to "a".
     */
    constructor(key: int, env: Surroundings, sqrt: real -> real,
                startNode: ObjectNode? := null, endNode: ObjectNode? := null, text: string := "a")
      requires IsSqrt(sqrt)
      ensures start == startNode && end == endNode && this.text == text && this.key == key
      ensures isSelfLoop <==> startNode != null && startNode == endNode
      ensures !isCurved && curveOffset == 0.0 && cp1 == Origin && cp2 == Origin
      ensures startNode == null || endNode == null ==>
        startPoint == Origin && endPoint == Point(100.0, 0.0) && loopCenter == Origin && loopRadius == 50.0
      ensures startNode != null && startNode == endNode ==> LoopPlaced(env)
      ensures startNode != null && endNode != null && startNode != endNode ==> EdgesPlaced(env, sqrt)
    {
      start, end := startNode, endNode;
      this.key := key;
      this.text := text;
      startPoint, endPoint := Origin, Point(100.0, 0.0);
      isSelfLoop := false;
      loopCenter, loopRadius := Origin, 50.0;
      // `update_position` before the arrow is in a scene: it has no parallel
      // arrows, so it stays straight (LoneArrowIsStraight).
      if startNode != null && endNode != null {
        if startNode == endNode {
          var g := SelfLoop(startNode.pos, env.width, env.height, BestLoopSide(env.sides));
          startPoint, endPoint, loopCenter, loopRadius := g.start, g.end, g.center, g.radius;
          isSelfLoop := true;
        } else {
          var from := EdgeIntersection(startNode.pos, endNode.pos, env.startBoundary, sqrt);
          var to := EdgeIntersection(endNode.pos, startNode.pos, env.endBoundary, sqrt);
          startPoint, endPoint := from, to;
        }
      }
      isCurved, curveOffset := false, 0.0;
      cp1, cp2 := Origin, Origin;
    }

    /**
     * `paint`: nothing while an end point is the origin (a null `QPointF` is
     * false); otherwise a self-loop wins over a curve, a curve over a
     * straight line.
     */
    function Drawn(): (d: Drawing)
      reads this`startPoint, this`endPoint, this`isSelfLoop, this`isCurved
      ensures d == NothingDrawn <==> startPoint == Origin || endPoint == Origin
      ensures d == LoopDrawing <==> startPoint != Origin && endPoint != Origin && isSelfLoop
      ensures d == CurveDrawing <==> startPoint != Origin && endPoint != Origin && !isSelfLoop && isCurved
      ensures d == LineDrawing <==> startPoint != Origin && endPoint != Origin && !isSelfLoop && !isCurved
    {
      if startPoint == Origin || endPoint == Origin then NothingDrawn
      else if isSelfLoop then LoopDrawing else if isCurved then CurveDrawing else LineDrawing
    }

    method GetText() returns (t: string)
      ensures t == text
    {
      t := text;
    }

    method SetText(t: string)
      modifies this`text
      ensures text == t
    {
      text := t;
    }

    method GetSource() returns (n: ObjectNode?)
      ensures n == start
    {
      n := start;
    }

    method GetTarget() returns (n: ObjectNode?)
      ensures n == end
    {
      n := end;
    }

    /** `_get_parallel_set`, scanning the scene's arrows in order. */
    method GetParallelSet(scene: Option<seq<Arrow>>) returns (r: seq<Arrow>)
      ensures r == ParallelSet(EndsOf(this), SceneEnds(scene))
    {
      if scene.None? || start == null || end == null || start == end {
        return [this];
      }
      var items := scene.value;
      ghost var es := EndsIn(items);
      r := [];
      var i := 0;
      while i < |items|
        invariant 0 <= i <= |items|
        invariant r == LinksIn(es[..i], start, end)
      {
        assert es[..i + 1][..i] == es[..i];
        var item := items[i];
        assert es[i] == Ends(item, item.start, item.end);
        if item.start != null && item.end != null && item.start != item.end {
          var sourceIn := item.start == start || item.start == end;
          var targetIn := item.end == start || item.end == end;
          if sourceIn && targetIn {
            r := r + [item];
          }
        }
        i := i + 1;
      }
      assert es[..i] == es;
    }

    /** `_find_parallel_arrows`. */
    method FindParallelArrows(scene: Option<seq<Arrow>>) returns (r: seq<Arrow>)
      ensures r == ParallelArrows(EndsOf(this), SceneEnds(scene))
    {
      if scene.None? || start == null || end == null {
        return [];
      }
      var all := GetParallelSet(scene);
      r := Without(all, this);
    }

    /** `_are_parallel`, both sets taken in the same scene. */
    method AreParallel(other: Arrow, scene: Option<seq<Arrow>>) returns (b: bool)
      ensures b <==> AreParallelIn(EndsOf(this), EndsOf(other), SceneEnds(scene))
    {
      if other.start == null || other.end == null {
        return false;
      }
      var mine := GetParallelSet(scene);
      var theirs := other.GetParallelSet(scene);
      var mySet := set a | a in mine;
      b := mySet == (set a | a in theirs) && |mySet| > 1;
    }

    /**
     * The control points after `_calculate_bezier_control_points`: unchanged
     * for a straight arrow or while an end point is the origin (a null
     * `QPointF` is false), else 0.3 and 0.7 of the way along the line,
     * pushed by the curve offset along its unit normal.
     */
    predicate Bent(cp1Before: Point, cp2Before: Point, sqrt: real -> real)
      reads this`isCurved, this`curveOffset, this`startPoint, this`endPoint, this`cp1, this`cp2
      requires IsSqrt(sqrt)
    {
      if !isCurved || startPoint == Origin || endPoint == Origin then cp1 == cp1Before && cp2 == cp2Before
      else (cp1, cp2) == BezierControlPoints(startPoint, endPoint, UnitNormal(startPoint, endPoint, sqrt), curveOffset)
    }

    method CalculateBezierControlPoints(sqrt: real -> real)
      requires IsSqrt(sqrt)
      modifies this`cp1, this`cp2
      ensures Bent(old(cp1), old(cp2), sqrt)
    {
      if !isCurved || startPoint == Origin || endPoint == Origin {
        return;
      }
      var cps := BezierControlPoints(startPoint, endPoint, UnitNormal(startPoint, endPoint, sqrt), curveOffset);
      cp1, cp2 := cps.0, cps.1;
    }

    /**
     * The arrow shows the planned offset: straight with offset 0 and the
     * control points kept, or curved by that offset with the control points bent.
     */
    predicate ShowsOffset(plan: Option<real>, cp1Before: Point, cp2Before: Point, sqrt: real -> real)
      reads this`isCurved, this`curveOffset, this`startPoint, this`endPoint, this`cp1, this`cp2
      requires IsSqrt(sqrt)
    {
      match plan
      case None => !isCurved && curveOffset == 0.0 && cp1 == cp1Before && cp2 == cp2Before
      case Some(offset) => isCurved && curveOffset == offset && Bent(cp1Before, cp2Before, sqrt)
    }

    /** The offset `_update_curve_positioning` settles on, from the parallel arrows sorted by key. */
    method PlanOffset(scene: Option<seq<Arrow>>) returns (plan: Option<real>)
      ensures plan == PlannedOffset(EndsOf(this), SceneEnds(scene))
    {
      var parallels := FindParallelArrows(scene);
      if parallels == [] {
        return None;
      }
      var all := [this] + parallels;
      var index := CountBelow(key, all);
      assert CountBelow(key, all) == CountBelow(key, parallels) by {
        assert all[1..] == parallels;
      }
      plan := Some(GroupOffset(index, |all|));
    }

    /** Writes a planned offset into the arrow and bends its control points. */
    method ApplyOffset(plan: Option<real>, sqrt: real -> real)
      requires IsSqrt(sqrt)
      modifies this`isCurved, this`curveOffset, this`cp1, this`cp2
      ensures ShowsOffset(plan, old(cp1), old(cp2), sqrt)
    {
      match plan
      case None =>
        isCurved, curveOffset := false, 0.0;
      case Some(offset) =>
        isCurved, curveOffset := true, offset;
        CalculateBezierControlPoints(sqrt);
    }

    /** `_update_curve_positioning`. */
    method UpdateCurvePositioning(scene: Option<seq<Arrow>>, sqrt: real -> real)
      requires IsSqrt(sqrt)
      modifies this`isCurved, this`curveOffset, this`cp1, this`cp2
      ensures ShowsOffset(PlannedOffset(EndsOf(this), SceneEnds(scene)), old(cp1), old(cp2), sqrt)
    {
      var plan := PlanOffset(scene);
      ApplyOffset(plan, sqrt);
      EndsKept(SceneArrows(scene));
    }

    /** The self-loop on the best side of the source node is in place. */
    predicate LoopPlaced(env: Surroundings)
      reads this`start, start, this`startPoint, this`endPoint, this`loopCenter, this`loopRadius, this`isSelfLoop
      requires start != null
    {
      var g := SelfLoop(start.pos, env.width, env.height, BestLoopSide(env.sides));
      startPoint == g.start && endPoint == g.end && loopCenter == g.center && loopRadius == g.radius && isSelfLoop
    }

    /** `_update_self_loop_position`, with `_find_best_loop_side` choosing the side. */
    method UpdateSelfLoopPosition(env: Surroundings)
      requires start != null
      modifies this`startPoint, this`endPoint, this`loopCenter, this`loopRadius, this`isSelfLoop
      ensures LoopPlaced(env) && Drawn() in {LoopDrawing, NothingDrawn}
    {
      var g := SelfLoop(start.pos, env.width, env.height, BestLoopSide(env.sides));
      startPoint, endPoint, loopCenter := g.start, g.end, g.center;
      loopRadius := g.radius;
      isSelfLoop := true;
    }

    /** Each end point is where the line between the node centres leaves its node. */
    predicate EdgesPlaced(env: Surroundings, sqrt: real -> real)
      reads this`start, this`end, start`pos, end`pos, this`startPoint, this`endPoint
      requires IsSqrt(sqrt) && start != null && end != null
    {
      startPoint == EdgePoint(start.pos, end.pos, env.startBoundary, sqrt)
      && endPoint == EdgePoint(end.pos, start.pos, env.endBoundary, sqrt)
    }

    /** `_update_normal_arrow_position`. */
    method UpdateNormalArrowPosition(env: Surroundings, sqrt: real -> real)
      requires IsSqrt(sqrt) && start != null && end != null
      modifies this`startPoint, this`endPoint
      ensures EdgesPlaced(env, sqrt)
    {
      startPoint := EdgeIntersection(start.pos, end.pos, env.startBoundary, sqrt);
      endPoint := EdgeIntersection(end.pos, start.pos, env.endBoundary, sqrt);
    }

    /**
     * `update_position`: nothing without both nodes; a self-loop, drawn as
     * one, when both ends are one node; otherwise the end points on the node
     * boundaries and the offset the parallel arrows call for.
     */
    method UpdatePosition(env: Surroundings, sqrt: real -> real)
      requires IsSqrt(sqrt)
      modifies this`startPoint, this`endPoint, this`loopCenter, this`loopRadius, this`isSelfLoop
      modifies this`isCurved, this`curveOffset, this`cp1, this`cp2
      ensures start == null || end == null ==> unchanged(this)
      ensures start != null && start == end ==>
        (LoopPlaced(env) && Drawn() in {LoopDrawing, NothingDrawn}
         && isCurved == old(isCurved) && curveOffset == old(curveOffset) && cp1 == old(cp1) && cp2 == old(cp2))
      ensures start != null && end != null && start != end ==>
        (EdgesPlaced(env, sqrt)
         && isSelfLoop == old(isSelfLoop) && loopCenter == old(loopCenter) && loopRadius == old(loopRadius)
         && ShowsOffset(PlannedOffset(EndsOf(this), SceneEnds(env.arrows)), old(cp1), old(cp2), sqrt))
    {
      if start == null || end == null {
      } else if start == end {
        UpdateSelfLoopPosition(env);
      } else {
        UpdateNormalArrowAndCurve(env, sqrt);
      }
    }

    /** The branch of `update_position` for two different nodes: end points, then the offset. */
    method UpdateNormalArrowAndCurve(env: Surroundings, sqrt: real -> real)
      requires IsSqrt(sqrt) && start != null && end != null
      modifies this`startPoint, this`endPoint, this`isCurved, this`curveOffset, this`cp1, this`cp2
      ensures EdgesPlaced(env, sqrt)
      ensures ShowsOffset(PlannedOffset(EndsOf(this), SceneEnds(env.arrows)), old(cp1), old(cp2), sqrt)
    {
      UpdateNormalArrowPosition(env, sqrt);
      UpdateCurvePositioning(env.arrows, sqrt);
    }

    /** `set_nodes`: the new nodes, then `update_position`. */
    method SetNodes(s: ObjectNode?, e: ObjectNode?, env: Surroundings, sqrt: real -> real)
      requires IsSqrt(sqrt)
      modifies this`start, this`end
      modifies this`startPoint, this`endPoint, this`loopCenter, this`loopRadius, this`isSelfLoop
      modifies this`isCurved, this`curveOffset, this`cp1, this`cp2
      ensures start == s && end == e
      ensures s == null || e == null ==>
        (startPoint == old(startPoint) && endPoint == old(endPoint) && isSelfLoop == old(isSelfLoop)
         && loopCenter == old(loopCenter) && loopRadius == old(loopRadius)
         && isCurved == old(isCurved) && curveOffset == old(curveOffset) && cp1 == old(cp1) && cp2 == old(cp2))
      ensures s != null && s == e ==>
        (LoopPlaced(env) && Drawn() in {LoopDrawing, NothingDrawn}
         && isCurved == old(isCurved) && curveOffset == old(curveOffset) && cp1 == old(cp1) && cp2 == old(cp2))
      ensures s != null && e != null && s != e ==>
        (EdgesPlaced(env, sqrt)
         && isSelfLoop == old(isSelfLoop) && loopCenter == old(loopCenter) && loopRadius == old(loopRadius)
         && ShowsOffset(PlannedOffset(EndsOf(this), SceneEnds(env.arrows)), old(cp1), old(cp2), sqrt))
    {
      start := s;
      end := e;
      UpdatePosition(env, sqrt);
    }
  }
}
