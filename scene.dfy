/**
 * The root diagram scene (`diagram_scene.py`), which holds older arrows:
 * fresh object and arrow names, grid cells and their occupancy, the search
 * for the nearest free cell, the removal of incomplete arrows, the
 * arrow-creation state and clearing.
 */
module Scene {
  import opened Wrappers
  import opened Geometry
  import opened Grid
  import opened Nodes
  import opened LegacyArrows
  import opened Routing
  import Deletion

  // ---------------------------------------------------------------- names

  /** `"'" * k`. */
  function Primes(k: nat): (s: string)
    ensures |s| == k && forall i :: 0 <= i < k ==> s[i] == '\''
  {
    if k == 0 then "" else Primes(k - 1) + "'"
  }

  /**
   * The `n`-th name the scene tries: letter `n % 26` counted from `first`,
   * followed by `n / 26` apostrophes.
   */
  function Candidate(first: char, n: nat): string
    requires first == 'A' || first == 'a'
  {
    [(first as int + n % 26) as char] + Primes(n / 26)
  }

  /** The candidate with `k` apostrophes and letter `j`. */
  lemma CandidateAt(first: char, k: nat, j: nat)
    requires first == 'A' || first == 'a'
    requires j < 26
    ensures Candidate(first, 26 * k + j) == [(first as int + j) as char] + Primes(k)
    ensures |Candidate(first, 26 * k + j)| == k + 1
  {
    var n := 26 * k + j;
    assert n / 26 == k && n % 26 == j;
  }

  /** Different positions in the sequence give different names. */
  lemma CandidateInjective(first: char, n: nat, m: nat)
    requires first == 'A' || first == 'a'
    requires Candidate(first, n) == Candidate(first, m)
    ensures n == m
  {
    var a, b := Candidate(first, n), Candidate(first, m);
    assert a[0] == b[0];
    assert (first as int + n % 26) as char == (first as int + m % 26) as char;
    assert n % 26 == m % 26;
    assert |a| == 1 + n / 26 && |b| == 1 + m / 26;
    assert n == 26 * (n / 26) + n % 26 && m == 26 * (m / 26) + m % 26;
  }

  /**
   * `name` is the first candidate, in the order A..Z, A'..Z', A''.. (or the
   * same from `a`), that `existing` does not hold.
   */
  ghost predicate FirstFree(first: char, existing: set<string>, name: string)
    requires first == 'A' || first == 'a'
  {
    name !in existing
    && exists n: nat :: name == Candidate(first, n) && forall m: nat :: m < n ==> Candidate(first, m) in existing
  }

  /** There is only one first free name. */
  lemma FirstFreeUnique(first: char, existing: set<string>, a: string, b: string)
    requires first == 'A' || first == 'a'
    requires FirstFree(first, existing, a) && FirstFree(first, existing, b)
    ensures a == b
  {
    var na: nat :| a == Candidate(first, na) && forall m: nat :: m < na ==> Candidate(first, m) in existing;
    var nb: nat :| b == Candidate(first, nb) && forall m: nat :: m < nb ==> Candidate(first, m) in existing;
    assert na == nb;
  }

  /** A length no string of `s` exceeds. */
  ghost function MaxLength(s: set<string>): (n: nat)
    ensures forall x :: x in s ==> |x| <= n
  {
    if s == {} then 0
    else
      var x :| x in s;
      var rest := MaxLength(s - {x});
      if |x| > rest then |x| else rest
  }

  /**
   * `next_available_object_name` and `next_available_arrow_name`: letters
   * from `first` with no apostrophe, then with one, and so on, until a name
   * is not taken. There is always one, since `existing` is finite.
   */
  method NextAvailableName(first: char, existing: set<string>) returns (name: string)
    requires first == 'A' || first == 'a'
    ensures FirstFree(first, existing, name)
  {
    ghost var bound := MaxLength(existing);
    var apostropheCount := 0;
    while true
      invariant apostropheCount <= bound
      invariant forall m: nat :: m < 26 * apostropheCount ==> Candidate(first, m) in existing
      decreases bound - apostropheCount
    {
      for letterIndex := 0 to 26
        invariant forall m: nat :: m < 26 * apostropheCount + letterIndex ==> Candidate(first, m) in existing
      {
        var candidate := [(first as int + letterIndex) as char] + Primes(apostropheCount);
        CandidateAt(first, apostropheCount, letterIndex);
        if candidate !in existing {
          return candidate;
        }
      }
      CandidateAt(first, apostropheCount, 0);
      assert Candidate(first, 26 * apostropheCount) in existing;
      apostropheCount := apostropheCount + 1;
    }
  }

  // ---------------------------------------------------------------- grid cells

  /** The grid points the objects of `objs` snap to, in order. */
  function SnappedCells(objs: seq<ObjectNode>, g: int): (cells: seq<Point>)
    requires g > 0
    reads objs`pos
    ensures |cells| == |objs|
    ensures forall i :: 0 <= i < |objs| ==> cells[i] == SnapToGrid(objs[i].pos, g)
  {
    if objs == [] then []
    else SnappedCells(objs[..|objs| - 1], g) + [SnapToGrid(objs[|objs| - 1].pos, g)]
  }

  /** The grid point of `q` is one of `cells`. */
  predicate Taken(q: Point, g: int, cells: seq<Point>)
    requires g > 0
  {
    SnapToGrid(q, g) in cells
  }

  /** The point `dx` cells right and `dy` cells down from `start`. */
  function Offset(start: Point, g: int, dx: int, dy: int): Point
  {
    Point(start.x + (dx * g) as real, start.y + (dy * g) as real)
  }

  /** The square ring around the start cell that cell (dx, dy) lies on. */
  function Ring(dx: int, dy: int): (r: nat)
    ensures r == dx || r == -dx || r == dy || r == -dy
    ensures -(r as int) <= dx <= r && -(r as int) <= dy <= r
  {
    var ax := if dx < 0 then -dx else dx;
    var ay := if dy < 0 then -dy else dy;
    if ax < ay then ay else ax
  }

  /**
   * Cell (a, b) comes before cell (dx, dy) on ring `r` in the search: on an
   * inner ring, or on the same ring in an earlier column, or in the same
   * column higher up.
   */
  predicate Earlier(a: int, b: int, r: int, dx: int, dy: int)
  {
    Ring(a, b) < r || (Ring(a, b) == r && (a < dx || (a == dx && b < dy)))
  }

  /** Every cell on a ring inside `n` around `start` is taken. */
  ghost predicate RingsTaken(start: Point, g: int, cells: seq<Point>, n: int)
    requires g > 0
  {
    forall a, b :: Ring(a, b) < n ==> Taken(Offset(start, g, a, b), g, cells)
  }

  /** Every cell the search visits before cell (dx, dy) of ring `r` is taken. */
  ghost predicate EarlierTaken(start: Point, g: int, cells: seq<Point>, r: int, dx: int, dy: int)
    requires g > 0
  {
    forall a, b :: Earlier(a, b, r, dx, dy) ==> Taken(Offset(start, g, a, b), g, cells)
  }

  /**
   * `p` is the free cell (dx, dy) on a ring from 1 to 19 around `start`
   * at which the search stops: every cell visited before it is taken.
   */
  ghost predicate FirstFreeCell(start: Point, g: int, cells: seq<Point>, p: Point)
    requires g > 0
  {
    exists dx, dy :: 1 <= Ring(dx, dy) < 20 && p == Offset(start, g, dx, dy) && !Taken(p, g, cells)
      && EarlierTaken(start, g, cells, Ring(dx, dy), dx, dy)
  }

  /** Before the first cell (-r, -r) of ring `r` come exactly the inner rings. */
  lemma EarlierRingStart(r: int)
    requires r >= 0
    ensures forall a, b :: Earlier(a, b, r, -r, -r) <==> Ring(a, b) < r
  {
  }

  /** One step down a column passes exactly the cell (dx, dy). */
  lemma EarlierStep(r: int, dx: int, dy: int)
    ensures forall a, b :: Earlier(a, b, r, dx, dy + 1) <==> Earlier(a, b, r, dx, dy) || (a == dx && b == dy && Ring(a, b) == r)
  {
  }

  /** Past the bottom of column dx comes the top of column dx + 1. */
  lemma EarlierNextColumn(start: Point, g: int, cells: seq<Point>, r: int, dx: int)
    requires g > 0 && r >= 0
    requires EarlierTaken(start, g, cells, r, dx, r + 1)
    ensures EarlierTaken(start, g, cells, r, dx + 1, -r)
  {
  }

  /** Past the last column of ring `r` lie exactly the rings up to `r`. */
  lemma EarlierRingEnd(r: int)
    requires r >= 0
    ensures forall a, b :: Earlier(a, b, r, r + 1, -r) <==> Ring(a, b) < r + 1
  {
  }

  /** A grid point offset by whole cells from a grid point is a grid point. */
  lemma OffsetIsGridPoint(p: Point, g: int, dx: int, dy: int)
    requires g > 0
    ensures SnapToGrid(Offset(SnapToGrid(p, g), g, dx, dy), g) == Offset(SnapToGrid(p, g), g, dx, dy)
  {
    var nx, ny := RoundHalfEven(p.x / g as real), RoundHalfEven(p.y / g as real);
    assert SnapToGrid(p, g) == Point((nx * g) as real, (ny * g) as real);
    var X, Y := (nx + dx) * g, (ny + dy) * g;
    assert nx * g + dx * g == X && ny * g + dy * g == Y;
    var q := Offset(SnapToGrid(p, g), g, dx, dy);
    assert q == Point(X as real, Y as real);
    SnapWholeCells(nx + dx, g);
    SnapWholeCells(ny + dy, g);
    assert SnapToGrid(q, g) == Point(SnapCoord(X as real, g) as real, SnapCoord(Y as real, g) as real);
  }

  /** A whole number of cells snaps to itself. */
  lemma SnapWholeCells(k: int, g: int)
    requires g > 0
    ensures SnapCoord((k * g) as real, g) == k * g
  {
    assert (k * g) as real == k as real * g as real;
    assert (k * g) as real / g as real == k as real;
    RoundInteger(k);
  }

  // ---------------------------------------------------------------- arrow lists

  /** The arrows of `s` with both a source and a target, in order. */
  function Complete(s: seq<Arrow>): (r: seq<Arrow>)
    reads s`start, s`end
    ensures |r| <= |s|
    ensures forall k :: 0 <= k < |r| ==> r[k].start != null && r[k].end != null && r[k] in s
    ensures forall i :: 0 <= i < |s| && s[i].start != null && s[i].end != null ==> s[i] in r
  {
    if s == [] then []
    else
      var last := s[|s| - 1];
      assert forall i :: 0 <= i < |s| - 1 ==> s[..|s| - 1][i] == s[i];
      Complete(s[..|s| - 1]) + (if last.start != null && last.end != null then [last] else [])
  }

  /** The arrows of `s` missing a source or a target, in order. */
  function Incomplete(s: seq<Arrow>): seq<Arrow>
    reads s`start, s`end
  {
    if s == [] then []
    else
      var last := s[|s| - 1];
      Incomplete(s[..|s| - 1]) + (if last.start == null || last.end == null then [last] else [])
  }

  /** `s` with every occurrence of `x` removed. */
  function RemoveItem(s: seq<Arrow>, x: Arrow): (r: seq<Arrow>)
    ensures forall k :: 0 <= k < |r| ==> r[k] != x && r[k] in s
    ensures forall i :: 0 <= i < |s| && s[i] != x ==> s[i] in r
  {
    if s == [] then []
    else
      assert forall i :: 0 <= i < |s| - 1 ==> s[..|s| - 1][i] == s[i];
      RemoveItem(s[..|s| - 1], x) + (if s[|s| - 1] != x then [s[|s| - 1]] else [])
  }

  /** `s` with every arrow of `gone` removed. */
  function RemoveAll(s: seq<Arrow>, gone: seq<Arrow>): seq<Arrow>
  {
    if s == [] then []
    else RemoveAll(s[..|s| - 1], gone) + (if s[|s| - 1] !in gone then [s[|s| - 1]] else [])
  }

  /** Removing no arrows leaves `s` as it is. */
  lemma {:induction false} RemoveNone(s: seq<Arrow>)
    ensures RemoveAll(s, []) == s
  {
    if s != [] {
      RemoveNone(s[..|s| - 1]);
      assert s == s[..|s| - 1] + [s[|s| - 1]];
    }
  }

  /** Removing one more arrow from `s` after removing `gone`. */
  lemma {:induction false} RemoveOneMore(s: seq<Arrow>, gone: seq<Arrow>, x: Arrow)
    ensures RemoveItem(RemoveAll(s, gone), x) == RemoveAll(s, gone + [x])
  {
    if s != [] {
      var init, last := s[..|s| - 1], s[|s| - 1];
      RemoveOneMore(init, gone, x);
      var A := RemoveAll(init, gone);
      if last !in gone {
        assert RemoveAll(s, gone) == A + [last];
        assert (A + [last])[..|A|] == A;
        assert RemoveItem(A + [last], x) == RemoveItem(A, x) + (if last != x then [last] else []);
      } else {
        assert RemoveAll(s, gone) == A;
      }
      assert RemoveAll(s, gone + [x]) == RemoveAll(init, gone + [x]) + (if last !in gone + [x] then [last] else []);
    }
  }

  /**
   * Removing arrows that all miss an end, among them every incomplete arrow
   * of `s`, leaves exactly the complete ones.
   */
  lemma {:induction false} RemoveIncomplete(s: seq<Arrow>, gone: seq<Arrow>)
    requires forall a :: a in Incomplete(s) ==> a in gone
    requires forall a :: a in gone ==> a.start == null || a.end == null
    ensures RemoveAll(s, gone) == Complete(s)
  {
    if s != [] {
      var init := s[..|s| - 1];
      var last := s[|s| - 1];
      IncompleteMembers(s);
      IncompleteMembers(init);
      assert forall a :: a in Incomplete(init) ==> a in Incomplete(s);
      if last.start == null || last.end == null {
        assert last in Incomplete(s);
      }
      RemoveIncomplete(init, gone);
    }
  }

  /** An arrow is in `Incomplete(s)` exactly when it is an arrow of `s` missing an end. */
  lemma {:induction false} IncompleteMembers(s: seq<Arrow>)
    ensures forall a :: a in Incomplete(s) <==> exists k :: 0 <= k < |s| && s[k] == a && (a.start == null || a.end == null)
  {
    if s != [] {
      var init := s[..|s| - 1];
      IncompleteMembers(init);
      assert forall k :: 0 <= k < |init| ==> init[k] == s[k];
    }
  }

  /** The names of the arrows of `s`. */
  function Texts(s: seq<Arrow>): set<string>
    reads s`text
  {
    set i | 0 <= i < |s| :: s[i].text
  }

  /** The collecting loop of `_validate_arrows_and_cycles`: the arrows of `items` missing an end. */
  method CollectIncomplete(items: seq<Arrow>) returns (r: seq<Arrow>)
    ensures r == Incomplete(items)
  {
    r := [];
    for i := 0 to |items|
      invariant r == Incomplete(items[..i])
    {
      assert items[..i + 1][..i] == items[..i];
      var item := items[i];
      var source := item.GetSource();
      var target := item.GetTarget();
      if source == null || target == null {
        r := r + [item];
      }
    }
    assert items[..|items|] == items;
  }

  // ---------------------------------------------------------------- the scene

  /** A placement the scene hands to the undo stack: the arrow, its two nodes and its name. */
  datatype ArrowPlacement = ArrowPlacement(arrow: Arrow, source: ObjectNode?, target: ObjectNode, name: string)

  class DiagramScene {
    /** The Objects among the scene's items. */
    var objects: seq<ObjectNode>
    /** The Arrows among the scene's items. */
    var arrows: seq<Arrow>
    var gridSize: int
    var gridEnabled: bool
    var nodeCounter: int
    var arrowCounter: int
    var arrowCreationMode: bool
    var arrowStartNode: ObjectNode?
    var currentArrow: Arrow?

    /** An empty scene with a hidden grid of 150 and no arrow under construction. */
    constructor()
      ensures objects == [] && arrows == []
      ensures gridSize == 150 && !gridEnabled
      ensures nodeCounter == 0 && arrowCounter == 0
      ensures !arrowCreationMode && arrowStartNode == null && currentArrow == null
    {
      objects, arrows := [], [];
      gridSize, gridEnabled := 150, false;
      nodeCounter, arrowCounter := 0, 0;
      arrowCreationMode, arrowStartNode, currentArrow := false, null, null;
    }

    /** The names of the scene's objects. */
    function ObjectNames(): set<string>
      reads this`objects, objects`text
    {
      set i | 0 <= i < |objects| :: objects[i].text
    }

    /** The names of the scene's arrows. */
    function ArrowNames(): set<string>
      reads this`arrows, arrows`text
    {
      Texts(arrows)
    }

    /** `gather_object_names`. */
    method GatherObjectNames() returns (names: set<string>)
      ensures forall x :: x in names <==> exists i :: 0 <= i < |objects| && objects[i].text == x
    {
      names := {};
      for i := 0 to |objects|
        invariant forall x :: x in names <==> exists k :: 0 <= k < i && objects[k].text == x
      {
        names := names + {objects[i].text};
      }
    }

    /** `gather_arrow_names`. */
    method GatherArrowNames() returns (names: set<string>)
      ensures forall x :: x in names <==> exists i :: 0 <= i < |arrows| && arrows[i].text == x
    {
      names := {};
      for i := 0 to |arrows|
        invariant forall x :: x in names <==> exists k :: 0 <= k < i && arrows[k].text == x
      {
        names := names + {arrows[i].text};
      }
    }

    /** `next_available_object_name`: the first of A..Z, A'..Z', .. no object has. */
    method NextAvailableObjectName() returns (name: string)
      ensures FirstFree('A', ObjectNames(), name)
    {
      var existing := GatherObjectNames();
      assert existing == ObjectNames();
      name := NextAvailableName('A', existing);
    }

    /** `next_available_arrow_name`: the first of a..z, a'..z', .. no arrow has. */
    method NextAvailableArrowName() returns (name: string)
      ensures FirstFree('a', ArrowNames(), name)
    {
      var existing := GatherArrowNames();
      assert existing == ArrowNames();
      name := NextAvailableName('a', existing);
    }

    /** Some object of the scene snaps to the same grid point as `position`. */
    predicate Occupied(position: Point)
      requires gridSize > 0
      reads this`objects, this`gridSize, objects`pos
    {
      Taken(position, gridSize, SnappedCells(objects, gridSize))
    }

    /** `_is_grid_position_occupied`. */
    method IsGridPositionOccupied(position: Point) returns (b: bool)
      requires gridSize > 0
      ensures b <==> exists i :: 0 <= i < |objects| && SnapToGrid(objects[i].pos, gridSize) == SnapToGrid(position, gridSize)
      ensures b == Occupied(position)
    {
      var grid := SnapToGrid(position, gridSize);
      for i := 0 to |objects|
        invariant forall k :: 0 <= k < i ==> SnapToGrid(objects[k].pos, gridSize) != grid
      {
        if SnapToGrid(objects[i].pos, gridSize) == grid {
          return true;
        }
      }
      return false;
    }

    /**
     * `_find_nearest_free_grid_position`: the grid point of `position` when it
     * is free; otherwise the first free cell on the square rings of radius 1
     * to 19 around it, column by column and top to bottom within a column,
     * so that no free cell lies on an inner ring; and the occupied grid
     * point itself when every cell up to ring 19 is taken.
     */
    method FindNearestFreeGridPosition(position: Point) returns (p: Point)
      requires gridSize > 0
      ensures var g, cells := gridSize, SnappedCells(objects, gridSize);
        var start := SnapToGrid(position, g);
        && (!Taken(start, g, cells) ==> p == start)
        && (Taken(start, g, cells) ==> FirstFreeCell(start, g, cells, p) || (p == start && RingsTaken(start, g, cells, 20)))
    {
      var start := SnapToGrid(position, gridSize);
      var taken := IsGridPositionOccupied(start);
      if !taken {
        return start;
      }
      p := SearchRings(start);
    }

    /** The ring loop of `_find_nearest_free_grid_position`, around an occupied grid point. */
    method SearchRings(start: Point) returns (p: Point)
      requires gridSize > 0 && Taken(start, gridSize, SnappedCells(objects, gridSize))
      ensures FirstFreeCell(start, gridSize, SnappedCells(objects, gridSize), p)
        || (p == start && RingsTaken(start, gridSize, SnappedCells(objects, gridSize), 20))
    {
      assert Offset(start, gridSize, 0, 0) == start;
      for radius := 1 to 20
        invariant RingsTaken(start, gridSize, SnappedCells(objects, gridSize), radius)
      {
        var dx, dy := ScanRing(start, radius);
        if dx <= radius {
          return Offset(start, gridSize, dx, dy);
        }
      }
      return start;
    }

    /**
     * One ring of `_find_nearest_free_grid_position`: the cells of ring
     * `radius` column by column, stopping at the first free one; column
     * `radius + 1` when the ring has none.
     */
    method ScanRing(start: Point, radius: int) returns (dx: int, dy: int)
      requires gridSize > 0 && 1 <= radius
      requires RingsTaken(start, gridSize, SnappedCells(objects, gridSize), radius)
      ensures -radius <= dx <= radius + 1
      ensures dx <= radius ==>
        && Ring(dx, dy) == radius
        && !Taken(Offset(start, gridSize, dx, dy), gridSize, SnappedCells(objects, gridSize))
        && EarlierTaken(start, gridSize, SnappedCells(objects, gridSize), radius, dx, dy)
      ensures dx == radius + 1 ==> RingsTaken(start, gridSize, SnappedCells(objects, gridSize), radius + 1)
    {
      EarlierRingStart(radius);
      dx, dy := -radius, -radius;
      while dx <= radius
        invariant -radius <= dx <= radius + 1
        invariant EarlierTaken(start, gridSize, SnappedCells(objects, gridSize), radius, dx, -radius)
      {
        dy := ScanColumn(start, radius, dx);
        if dy <= radius {
          return;
        }
        EarlierNextColumn(start, gridSize, SnappedCells(objects, gridSize), radius, dx);
        dx := dx + 1;
      }
      EarlierRingEnd(radius);
    }

    /**
     * The innermost loop of `_find_nearest_free_grid_position`: column `dx`
     * of ring `radius`, top to bottom, stopping at the first free cell of
     * the ring; `radius + 1` when the column has none.
     */
    method ScanColumn(start: Point, radius: int, dx: int) returns (dy: int)
      requires gridSize > 0 && 1 <= radius && -radius <= dx <= radius
      requires EarlierTaken(start, gridSize, SnappedCells(objects, gridSize), radius, dx, -radius)
      ensures -radius <= dy <= radius + 1
      ensures EarlierTaken(start, gridSize, SnappedCells(objects, gridSize), radius, dx, dy)
      ensures dy <= radius ==> Ring(dx, dy) == radius && !Taken(Offset(start, gridSize, dx, dy), gridSize, SnappedCells(objects, gridSize))
    {
      dy := -radius;
      while dy <= radius
        invariant -radius <= dy <= radius + 1
        invariant EarlierTaken(start, gridSize, SnappedCells(objects, gridSize), radius, dx, dy)
      {
        EarlierStep(radius, dx, dy);
        if Ring(dx, dy) == radius {
          var test := Offset(start, gridSize, dx, dy);
          var taken := IsGridPositionOccupied(test);
          if !taken {
            return;
          }
        }
        dy := dy + 1;
      }
    }

    /** `_validate_arrows_and_cycles`, first part: every arrow missing an end leaves the scene. */
    method ValidateArrows()
      modifies this`arrows
      ensures arrows == Complete(old(arrows))
    {
      var arrowsToRemove := CollectIncomplete(arrows);
      ghost var before := arrows;
      RemoveArrows(arrowsToRemove);
      IncompleteMembers(before);
      RemoveIncomplete(before, arrowsToRemove);
    }

    /** The removal loop of `_validate_arrows_and_cycles`: each arrow of `gone` leaves the scene. */
    method RemoveArrows(gone: seq<Arrow>)
      modifies this`arrows
      ensures arrows == RemoveAll(old(arrows), gone)
    {
      RemoveNone(arrows);
      assert gone[..0] == [];
      for j := 0 to |gone|
        invariant arrows == RemoveAll(old(arrows), gone[..j])
      {
        assert gone[..j + 1] == gone[..j] + [gone[j]];
        RemoveOneMore(old(arrows), gone[..j], gone[j]);
        arrows := RemoveItem(arrows, gone[j]);
      }
      assert gone[..|gone|] == gone;
    }

    /** The temporary arrow the scene is drawing, as a set for frames. */
    function Pending(): set<Arrow>
      reads this`currentArrow
    {
      if currentArrow == null then {} else {currentArrow}
    }

    /**
     * `cancel_arrow_creation`: the temporary arrow leaves the scene, the
     * creation state is reset and incomplete arrows are removed.
     */
    method CancelArrowCreation()
      modifies this`arrows, this`arrowCreationMode, this`arrowStartNode, this`currentArrow
      ensures !arrowCreationMode && arrowStartNode == null && currentArrow == null
      ensures arrows == Complete(if old(arrowCreationMode) && old(currentArrow) != null
                                 then RemoveItem(old(arrows), old(currentArrow)) else old(arrows))
    {
      if arrowCreationMode && currentArrow != null {
        arrows := RemoveItem(arrows, currentArrow);
      }
      arrowCreationMode, arrowStartNode, currentArrow := false, null, null;
      ValidateArrows();
    }

    /**
     * `finish_arrow_creation`: with an arrow under construction and a target
     * other than its start node, the arrow leaves the scene, takes the first
     * free arrow name and is handed over for placement between the two
     * nodes, and the pushed `PlaceArrow` runs its redo at once (`QUndoStack.push`),
     * so the arrow is back in the scene on its nodes; a self-loop, or no arrow
     * under construction, cancels instead. Either way the creation state ends
     * and incomplete arrows are removed. `env` gives the geometry the redo
     * places the arrow with.
     */
    method FinishArrowCreation(endNode: ObjectNode, env: Surroundings, sqrt: real -> real)
      returns (placed: Option<ArrowPlacement>)
      requires IsSqrt(sqrt)
      modifies this`arrows, this`arrowCounter, this`arrowCreationMode, this`arrowStartNode, this`currentArrow
      modifies Pending()`text, Pending()`start, Pending()`end, Pending()`startPoint, Pending()`endPoint
      modifies Pending()`loopCenter, Pending()`loopRadius, Pending()`isSelfLoop
      modifies Pending()`isCurved, Pending()`curveOffset, Pending()`cp1, Pending()`cp2
      ensures placed.Some? <==> old(arrowCreationMode) && old(currentArrow) != null && endNode != old(arrowStartNode)
      ensures !arrowCreationMode && arrowStartNode == null && currentArrow == null
      ensures placed.None? ==>
        arrows == Complete(if old(arrowCreationMode) && old(currentArrow) != null
                           then RemoveItem(old(arrows), old(currentArrow)) else old(arrows))
        && arrowCounter == old(arrowCounter) && unchanged(Pending())
      ensures placed.Some? ==>
        var arrow := old(currentArrow);
        placed.value == ArrowPlacement(arrow, old(arrowStartNode), endNode, arrow.text)
        && arrowCounter == old(arrowCounter) + 1
        && FirstFree('a', old(Texts(RemoveItem(arrows, arrow))), arrow.text)
        && arrow.start == old(arrowStartNode) && arrow.end == endNode
        && arrows == Complete(Deletion.Added(RemoveItem(old(arrows), arrow), arrow))
        && (arrow.start != null ==> arrow in arrows)
    {
      if arrowCreationMode && currentArrow != null {
        if endNode == arrowStartNode {
          CancelArrowCreation();
          return None;
        }
        var p := PlaceCurrentArrow(endNode, env, sqrt);
        placed := Some(p);
      } else {
        CancelArrowCreation();
        placed := None;
      }
    }

    /**
     * The branch of `finish_arrow_creation` that names the arrow, hands it
     * over for placement and lets the command's redo put it back on its nodes
     * (as `undo_commands_new.py`'s `PlaceArrow.redo` does) before the
     * incomplete arrows are removed.
     */
    method PlaceCurrentArrow(endNode: ObjectNode, env: Surroundings, sqrt: real -> real)
      returns (placed: ArrowPlacement)
      requires IsSqrt(sqrt)
      requires arrowCreationMode && currentArrow != null && endNode != arrowStartNode
      modifies this`arrows, this`arrowCounter, this`arrowCreationMode, this`arrowStartNode, this`currentArrow
      modifies Pending()`text, Pending()`start, Pending()`end, Pending()`startPoint, Pending()`endPoint
      modifies Pending()`loopCenter, Pending()`loopRadius, Pending()`isSelfLoop
      modifies Pending()`isCurved, Pending()`curveOffset, Pending()`cp1, Pending()`cp2
      ensures !arrowCreationMode && arrowStartNode == null && currentArrow == null
      ensures
        var arrow := old(currentArrow);
        placed == ArrowPlacement(arrow, old(arrowStartNode), endNode, arrow.text)
        && arrowCounter == old(arrowCounter) + 1
        && FirstFree('a', old(Texts(RemoveItem(arrows, arrow))), arrow.text)
        && arrow.start == old(arrowStartNode) && arrow.end == endNode
        && arrows == Complete(Deletion.Added(RemoveItem(old(arrows), arrow), arrow))
        && (arrow.start != null ==> arrow in arrows)
    {
      var arrow := currentArrow;
      var startNode := arrowStartNode;
      var rest := RemoveItem(arrows, arrow);
      arrows := rest;
      var arrowName := NextAvailableArrowName();
      assert Texts(rest) == old(Texts(RemoveItem(arrows, arrow)));
      arrow.SetText(arrowName);
      placed := ArrowPlacement(arrow, startNode, endNode, arrowName);
      RedoPlacement(arrow, startNode, endNode, env, sqrt);
      arrowCounter := arrowCounter + 1;
      arrowCreationMode, arrowStartNode, currentArrow := false, null, null;
      ghost var held := arrows;
      ValidateArrows();
      if arrow.start != null {
        ghost var k :| 0 <= k < |held| && held[k] == arrow;
      }
    }

    /** The redo of the pushed `PlaceArrow`: `set_nodes`, then `addItem`. */
    method RedoPlacement(arrow: Arrow, s: ObjectNode?, e: ObjectNode?, env: Surroundings, sqrt: real -> real)
      requires IsSqrt(sqrt)
      modifies this`arrows
      modifies arrow`start, arrow`end, arrow`startPoint, arrow`endPoint, arrow`loopCenter, arrow`loopRadius
      modifies arrow`isSelfLoop, arrow`isCurved, arrow`curveOffset, arrow`cp1, arrow`cp2
      ensures arrows == Deletion.Added(old(arrows), arrow)
      ensures arrow.start == s && arrow.end == e
      ensures s != null && s == e ==> arrow.LoopPlaced(env)
      ensures s != null && e != null && s != e ==> arrow.EdgesPlaced(env, sqrt)
    {
      arrow.SetNodes(s, e, env, sqrt);
      arrows := Deletion.Added(arrows, arrow);
    }

    method ResetNodeCounter()
      modifies this`nodeCounter
      ensures nodeCounter == 0
    {
      nodeCounter := 0;
    }

    method ResetArrowCounter()
      modifies this`arrowCounter
      ensures arrowCounter == 0
    {
      arrowCounter := 0;
    }

    /** `clear`: no items, both name counters back to zero, no arrow under construction. */
    method Clear()
      modifies this`objects, this`arrows, this`nodeCounter, this`arrowCounter
      modifies this`arrowCreationMode, this`arrowStartNode, this`currentArrow
      ensures objects == [] && arrows == []
      ensures nodeCounter == 0 && arrowCounter == 0
      ensures !arrowCreationMode && arrowStartNode == null && currentArrow == null
    {
      objects, arrows := [], [];
      ResetNodeCounter();
      ResetArrowCounter();
      CancelArrowCreation();
    }
  }
}
