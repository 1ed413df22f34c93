/**
 * The arrow of the current editor: its style flags (general, inclusion,
 * monomorphism, epimorphism, isomorphism, kernel), its label, its pens, and
 * the placement of its line, curve or self-loop among the other arrows of
 * the scene.
 *
 * An arrow's identity `id(x)`, used only to order a group of arrows, is the
 * arrow's `key`.
 */
module Arrows {
  import opened Wrappers
  import opened Geometry
  import opened Text
  import opened Nodes
  import opened Routing

  // ---------------------------------------------------------------- style flags

  /** The five style flags of an arrow. */
  datatype Styles = Styles(inclusion: bool, monomorphism: bool, epimorphism: bool, isomorphism: bool, general: bool)

  /** The style toggles of the context menu. */
  datatype Toggle = Inclusion | Monomorphism | Epimorphism | Isomorphism | General

  /** A new arrow is a general arrow and nothing else. */
  const GeneralOnly: Styles := Styles(false, false, false, false, true)

  /** `set_as_kernel_arrow` leaves inclusion as the only style. */
  const KernelStyles: Styles := Styles(true, false, false, false, false)

  /** The general style excludes every other style. */
  predicate GeneralExclusive(s: Styles)
  {
    s.general ==> !s.inclusion && !s.monomorphism && !s.epimorphism && !s.isomorphism
  }

  /**
   * The styles after one toggle. Kernel arrows ignore the inclusion,
   * monomorphism and general toggles. Switching one of the four styles on
   * clears the general style; the general toggle acts only on an arrow that
   * is not general yet, and then clears the four styles.
   */
  function Toggled(s: Styles, kernel: bool, t: Toggle): Styles
  {
    match t
    case Inclusion =>
      if kernel then s else s.(inclusion := !s.inclusion, general := if !s.inclusion then false else s.general)
    case Monomorphism =>
      if kernel then s else s.(monomorphism := !s.monomorphism, general := if !s.monomorphism then false else s.general)
    case Epimorphism =>
      s.(epimorphism := !s.epimorphism, general := if !s.epimorphism then false else s.general)
    case Isomorphism =>
      s.(isomorphism := !s.isomorphism, general := if !s.isomorphism then false else s.general)
    case General =>
      if kernel || s.general then s else GeneralOnly
  }

  /** No toggle can make the general style share an arrow with another style. */
  lemma ToggleKeepsGeneralExclusive(s: Styles, kernel: bool, t: Toggle)
    requires GeneralExclusive(s)
    ensures GeneralExclusive(Toggled(s, kernel, t))
  {
  }

  /** A kernel arrow's inclusion style survives every toggle. */
  lemma ToggleKeepsKernelInclusion(s: Styles, t: Toggle)
    requires s.inclusion
    ensures Toggled(s, true, t).inclusion
  {
  }

  /** The inclusion, monomorphism and general toggles do nothing to a kernel arrow. */
  lemma KernelIgnoresToggles(s: Styles, t: Toggle)
    requires t == Inclusion || t == Monomorphism || t == General
    ensures Toggled(s, true, t) == s
  {
  }

  /**
   * On an arrow that is not general, toggling one of the four styles twice
   * gives back the styles it had.
   */
  lemma ToggleTwiceRestores(s: Styles, kernel: bool, t: Toggle)
    requires t != General && !s.general
    ensures Toggled(Toggled(s, kernel, t), kernel, t) == s
  {
  }

  /** The general toggle makes a non-kernel arrow general only, and a second one changes nothing. */
  lemma GeneralToggleSettles(s: Styles)
    ensures Toggled(s, false, General) == (if s.general then s else GeneralOnly)
    ensures Toggled(Toggled(s, false, General), false, General) == Toggled(s, false, General)
  {
  }

  /**
   * The style toggles the context menu offers: isomorphism and epimorphism
   * for a kernel arrow (its inclusion entry is shown checked and disabled),
   * all five for any other arrow.
   */
  function MenuToggles(kernel: bool): seq<Toggle>
  {
    if kernel then [Isomorphism, Epimorphism]
    else [Inclusion, Monomorphism, Epimorphism, Isomorphism, General]
  }

  /**
   * Every style entry of the menu takes effect when chosen, the general
   * entry whenever the arrow is not general already; the toggles a kernel
   * arrow's menu leaves out are exactly the ones that would do nothing.
   */
  lemma MenuTogglesTakeEffect(s: Styles, kernel: bool, t: Toggle)
    ensures t in MenuToggles(kernel) && t != General ==> Toggled(s, kernel, t) != s
    ensures t in MenuToggles(kernel) && t == General ==> (Toggled(s, kernel, t) != s <==> !s.general)
    ensures t !in MenuToggles(true) <==> (t == Inclusion || t == Monomorphism || t == General)
  {
    if t == General && !kernel && !s.general {
      assert Toggled(s, kernel, t).general;
    }
  }

  /** `is_kernel_arrow`: the kernel flag is set or the name starts with "k_". */
  predicate IsKernelName(flag: bool, text: string)
  {
    flag || StartsWith(text, "k_")
  }

  // ---------------------------------------------------------------- pens and labels

  datatype PenStyle = SolidLine | DashLine

  datatype ArrowPen = ArrowPen(color: Color, width: int, style: PenStyle)

  const ArrowGray: Color := Color(100, 100, 100, 255)

  /** A new arrow's pen: grey, 2 wide, solid. */
  const DefaultPen: ArrowPen := ArrowPen(ArrowGray, 2, SolidLine)

  /** The pen for the "there exists" state: a dashed copy of the solid pen, or the solid pen itself. */
  function StyledPen(solid: ArrowPen, thereExists: bool): (p: ArrowPen)
    ensures p.color == solid.color && p.width == solid.width
    ensures thereExists ==> p.style == DashLine
    ensures !thereExists ==> p == solid
  {
    if thereExists then solid.(style := DashLine) else solid
  }

  /** The label an arrow shows: its text, after "~ " when it is an isomorphism. */
  function DisplayedText(text: string, isomorphism: bool): (r: string)
    ensures isomorphism ==> r == "~ " + text && StartsWith(r, "~ ")
    ensures !isomorphism ==> r == text
  {
    if isomorphism then "~ " + text else text
  }

  /** The displayed text gives the arrow's text back once the "~ " marker is removed. */
  lemma DisplayedTextRecoversText(text: string, isomorphism: bool)
    ensures isomorphism ==> DisplayedText(text, isomorphism)[2..] == text
    ensures !isomorphism ==> DisplayedText(text, isomorphism) == text
  {
  }

  /**
   * `_should_hide_label`: an arrow named "0" hides its label when its source
   * or its target is named "0".
   */
  predicate HidesLabel(text: string, source: Option<string>, target: Option<string>)
  {
    text == "0" && (source == Some("0") || target == Some("0"))
  }

  /** Only a zero arrow touching a zero object hides its label. */
  lemma HidesLabelOnlyForZero(text: string, source: Option<string>, target: Option<string>)
    ensures HidesLabel(text, source, target) ==> text == "0"
    ensures text == "0" && source == Some("0") ==> HidesLabel(text, source, target)
    ensures text == "0" && target == Some("0") ==> HidesLabel(text, source, target)
    ensures source.None? && target.None? ==> !HidesLabel(text, source, target)
  {
  }

  // ---------------------------------------------------------------- arrows as the routing code sees them

  /**
   * One arrow as the routing code reads it: the arrow itself, its key, its
   * two nodes, and the line between the nodes' positions when it has both.
   */
  datatype ArrowView = ArrowView(item: ArrowItem, key: int, start: ObjectNode?, end: ObjectNode?, line: Option<Line>)

  /** A view whose line is present exactly when both nodes are. */
  predicate Formed(v: ArrowView)
  {
    v.line.Some? <==> v.start != null && v.end != null
  }

  /** `_get_arrow_line`: the line from the source node's position to the target node's position. */
  function ArrowLine(a: ArrowItem): (l: Option<Line>)
    reads a`start, a`end, a.start, a.end
    ensures l.Some? <==> a.start != null && a.end != null
  {
    if a.start == null || a.end == null then None else Some(Line(a.start.pos, a.end.pos))
  }

  function View(a: ArrowItem): (v: ArrowView)
    reads a`start, a`end, a.start, a.end
    ensures Formed(v) && v.item == a
  {
    ArrowView(a, a.key, a.start, a.end, ArrowLine(a))
  }

  /** The nodes the arrows of `s` are attached to. */
  function NodesOf(s: seq<ArrowItem>): set<ObjectNode?>
    reads s`start, s`end
  {
    (set a | a in s :: a.start) + (set a | a in s :: a.end)
  }

  function ViewsOf(s: seq<ArrowItem>): (vs: seq<ArrowView>)
    reads s`start, s`end, NodesOf(s)
    ensures |vs| == |s| && forall i :: 0 <= i < |s| ==> vs[i] == View(s[i])
  {
    if |s| == 0 then []
    else
      assert NodesOf(s[..|s| - 1]) <= NodesOf(s);
      ViewsOf(s[..|s| - 1]) + [View(s[|s| - 1])]
  }

  /** Every view of the scene, if there is one, is formed. */
  predicate FormedScene(scene: Option<seq<ArrowView>>)
  {
    scene.Some? ==> forall v :: v in scene.value ==> Formed(v)
  }

  /** The views of `s` stay the same while no arrow of `s` changes nodes and no node of theirs moves. */
  twostate lemma ViewsKept(s: seq<ArrowItem>)
    requires forall a :: a in s ==> old(a.start) == a.start && old(a.end) == a.end
    requires forall n :: n in old(NodesOf(s)) && n != null ==> old(n.pos) == n.pos
    ensures ViewsOf(s) == old(ViewsOf(s))
  {
    forall i | 0 <= i < |s|
      ensures ViewsOf(s)[i] == old(ViewsOf(s))[i]
    {
      assert s[i] in s;
    }
  }

  function SceneArrows(scene: Option<seq<ArrowItem>>): seq<ArrowItem>
  {
    if scene.Some? then scene.value else []
  }

  function SceneViews(scene: Option<seq<ArrowItem>>): (r: Option<seq<ArrowView>>)
    reads SceneArrows(scene)`start, SceneArrows(scene)`end, NodesOf(SceneArrows(scene))
    ensures r.Some? <==> scene.Some?
    ensures FormedScene(r)
  {
    if scene.Some? then Some(ViewsOf(scene.value)) else None
  }

  /** `v` is another arrow with both nodes whose line is parallel to and overlaps `me`'s. */
  predicate Qualifies(me: ArrowView, v: ArrowView, sqrt: real -> real)
  {
    v.item != me.item && v.start != null && v.end != null && ParallelAndOverlapping(me.line, v.line, sqrt)
  }

  /** The views of `vs` that qualify as parallel to `me`, in order. */
  function ParallelViews(me: ArrowView, vs: seq<ArrowView>, sqrt: real -> real): (r: seq<ArrowView>)
    ensures |r| <= |vs|
    ensures forall v :: v in r ==> v in vs && Qualifies(me, v, sqrt)
    ensures forall v :: v in vs && Qualifies(me, v, sqrt) ==> v in r
  {
    if |vs| == 0 then []
    else
      var last := vs[|vs| - 1];
      var r := ParallelViews(me, vs[..|vs| - 1], sqrt);
      assert vs == vs[..|vs| - 1] + [last];
      if Qualifies(me, last, sqrt) then r + [last] else r
  }

  /**
   * `_find_parallel_arrows`: nothing without a scene or without both nodes,
   * else every other arrow of the scene with both nodes whose line is
   * parallel to and overlaps this arrow's line.
   */
  function ParallelArrowsFor(me: ArrowView, scene: Option<seq<ArrowView>>, sqrt: real -> real): seq<ArrowView>
  {
    if scene.None? || me.start == null || me.end == null then [] else ParallelViews(me, scene.value, sqrt)
  }

  /** `_get_parallel_set`, as a set: the arrow together with its parallel arrows. */
  function ParallelSet(me: ArrowView, scene: Option<seq<ArrowView>>, sqrt: real -> real): set<ArrowItem>
  {
    set v | v in [me] + ParallelArrowsFor(me, scene, sqrt) :: v.item
  }

  /**
   * `_are_parallel`: the other arrow has both nodes, both arrows have the
   * same parallel set, and that set holds more than one arrow.
   */
  predicate AreParallelViews(me: ArrowView, other: ArrowView, scene: Option<seq<ArrowView>>, sqrt: real -> real)
  {
    other.start != null && other.end != null
    && ParallelSet(me, scene, sqrt) == ParallelSet(other, scene, sqrt)
    && |ParallelSet(me, scene, sqrt)| > 1
  }

  /** Being parallel does not depend on which of the two arrows asks. */
  lemma AreParallelSymmetric(a: ArrowView, b: ArrowView, scene: Option<seq<ArrowView>>, sqrt: real -> real)
    requires AreParallelViews(a, b, scene, sqrt)
    ensures AreParallelViews(b, a, scene, sqrt)
  {
    LooseArrowStandsAlone(a, scene, sqrt);
  }

  /** An arrow without both nodes has only itself in its parallel set. */
  lemma LooseArrowStandsAlone(me: ArrowView, scene: Option<seq<ArrowView>>, sqrt: real -> real)
    ensures me.start == null || me.end == null ==> ParallelSet(me, scene, sqrt) == {me.item}
  {
  }

  /** The arrows of `vs` that share both nodes with `me`, in either direction (or, with `sharing` false, the others). */
  predicate SharesEnds(me: ArrowView, v: ArrowView)
  {
    (me.start == v.start && me.end == v.end) || (me.start == v.end && me.end == v.start)
  }

  function Sharing(me: ArrowView, vs: seq<ArrowView>, sharing: bool): (r: seq<ArrowView>)
    ensures |r| <= |vs|
    ensures forall v :: v in r ==> v in vs && SharesEnds(me, v) == sharing
    ensures forall v :: v in vs && SharesEnds(me, v) == sharing ==> v in r
  {
    if |vs| == 0 then []
    else
      var last := vs[|vs| - 1];
      var r := Sharing(me, vs[..|vs| - 1], sharing);
      assert vs == vs[..|vs| - 1] + [last];
      if SharesEnds(me, last) == sharing then r + [last] else r
  }

  /** When no arrow shares both nodes, the non-sharing arrows are all of them. */
  lemma {:induction false} NoneSharingKeepsAll(me: ArrowView, vs: seq<ArrowView>)
    requires Sharing(me, vs, true) == []
    ensures Sharing(me, vs, false) == vs
  {
    if |vs| > 0 {
      var last := vs[|vs| - 1];
      assert vs == vs[..|vs| - 1] + [last];
      NoneSharingKeepsAll(me, vs[..|vs| - 1]);
    }
  }

  /**
   * The position of an arrow with key `key` in a group sorted by key: the
   * number of arrows of the group with a smaller key.
   */
  function KeyRank(key: int, vs: seq<ArrowView>): (r: nat)
    ensures r <= |vs|
  {
    if |vs| == 0 then 0
    else KeyRank(key, vs[..|vs| - 1]) + (if vs[|vs| - 1].key < key then 1 else 0)
  }

  /** An arrow does not count itself, so its position in a group it heads is below the group's size. */
  lemma {:induction false} RankBelowSize(me: ArrowView, vs: seq<ArrowView>)
    ensures KeyRank(me.key, [me] + vs) < |vs| + 1
  {
    RankPrepend(me, me.key, vs);
  }

  lemma {:induction false} RankPrepend(v: ArrowView, key: int, vs: seq<ArrowView>)
    ensures KeyRank(key, [v] + vs) == (if v.key < key then 1 else 0) + KeyRank(key, vs)
  {
    if |vs| > 0 {
      var w := [v] + vs;
      assert w[..|w| - 1] == [v] + vs[..|vs| - 1];
      RankPrepend(v, key, vs[..|vs| - 1]);
    }
  }

  function LinesOf(vs: seq<ArrowView>): (ls: seq<Line>)
    requires AllLined(vs)
    ensures |ls| == |vs| && forall i :: 0 <= i < |vs| ==> ls[i] == vs[i].line.value
  {
    if |vs| == 0 then [] else LinesOf(vs[..|vs| - 1]) + [vs[|vs| - 1].line.value]
  }

  function VectorsOf(ls: seq<Line>): (ws: seq<Point>)
    ensures |ws| == |ls| && forall i :: 0 <= i < |ls| ==> ws[i] == Vector(ls[i])
  {
    if |ls| == 0 then [] else VectorsOf(ls[..|ls| - 1]) + [Vector(ls[|ls| - 1])]
  }

  /** Some line of `others` overlaps `mine` visually. */
  predicate OverlapsAny(mine: Line, others: seq<Line>, sqrt: real -> real)
  {
    exists k :: 0 <= k < |others| && OverlapsVisually(mine, others[k], sqrt)
  }

  /** No line of `others` points against `mine`. */
  predicate SameWay(mine: Point, others: seq<Point>)
  {
    forall k :: 0 <= k < |others| ==> Dot(mine, others[k]) >= 0.0
  }

  /** How an arrow between two different nodes is to be drawn. */
  datatype Curve = Straight | Curved(offset: real, direction: Option<Point>)

  /** The position of `me` in the group it forms with `vs`, sorted by key. */
  function SortedIndex(me: ArrowView, vs: seq<ArrowView>): (r: nat)
    ensures r < |vs| + 1
  {
    RankBelowSize(me, vs);
    KeyRank(me.key, [me] + vs)
  }

  /** Every view of `vs` has a line. */
  predicate AllLined(vs: seq<ArrowView>)
  {
    forall v :: v in vs ==> v.line.Some?
  }

  /**
   * `_update_curve_positioning`, as a decision. An arrow without parallel
   * arrows is straight; otherwise its group decides.
   */
  function CurvePlan(me: ArrowView, scene: Option<seq<ArrowView>>, sqrt: real -> real): Curve
    requires IsSqrt(sqrt) && Formed(me)
    requires FormedScene(scene)
  {
    var ps := ParallelArrowsFor(me, scene, sqrt);
    if |ps| == 0 then Straight
    else
      assert AllLined(ps) by {
        forall v | v in ps
          ensures v.line.Some?
        {
          assert v in scene.value;
        }
      }
      GroupCurve(me, ps, sqrt)
  }

  /**
   * The curve of an arrow with parallel arrows `ps`. If some share both its
   * nodes, the group they form with it fans out symmetrically by key.
   * Otherwise the visual-overlap rules decide.
   */
  function GroupCurve(me: ArrowView, ps: seq<ArrowView>, sqrt: real -> real): Curve
    requires IsSqrt(sqrt) && me.line.Some? && AllLined(ps)
  {
    var same := Sharing(me, ps, true);
    if |same| > 0 then Curved(GroupOffset(SortedIndex(me, same), |same| + 1), None)
    else OverlapCurve(me, ps, sqrt)
  }

  /**
   * The curve of an arrow sharing no nodes with its parallel arrows `ps`:
   * straight unless one of them overlaps it visually; then, when none
   * points against it, 30 per rank to its left, and else the mixed rules: a
   * pair pointing apart curves by direction factor, larger groups fan out,
   * mirrored for a negative direction factor.
   */
  function OverlapCurve(me: ArrowView, ps: seq<ArrowView>, sqrt: real -> real): Curve
    requires IsSqrt(sqrt) && me.line.Some? && AllLined(ps)
  {
    var others := LinesOf(Sharing(me, ps, false));
    var mine := me.line.value;
    if !OverlapsAny(mine, others, sqrt) then Straight
    else OverlapBend(me, ps, SameWay(Vector(mine), VectorsOf(others)), sqrt)
  }

  /**
   * The curve of an arrow that would visually overlap another: a fan-out
   * when all the overlapping arrows run the same way, otherwise an offset
   * that depends on the direction of each arrow.
   */
  function OverlapBend(me: ArrowView, ps: seq<ArrowView>, sameWay: bool, sqrt: real -> real): Curve
    requires IsSqrt(sqrt) && me.line.Some? && AllLined(ps)
  {
    var mine := me.line.value;
    var index := SortedIndex(me, ps);
    var v := Vector(mine);
    if sameWay then
      Curved(SameDirectionOffset(index), Some(UnitNormal(mine.start, mine.end, sqrt)))
    else if |ps| + 1 == 2 then
      var w := Vector(ps[0].line.value);
      Curved(MixedOffset(index, 2, Dot(v, w) < 0.0, DirectionFactor(v), DirectionFactor(w)), None)
    else
      Curved(MixedOffset(index, |ps| + 1, false, DirectionFactor(v), 0.0), None)
  }

  /** `_update_curve_positioning` once the parallel arrows are known. */
  method PlanGroupCurve(me: ArrowView, ps: seq<ArrowView>, sqrt: real -> real) returns (c: Curve)
    requires IsSqrt(sqrt) && me.line.Some? && AllLined(ps)
    ensures c == GroupCurve(me, ps, sqrt)
  {
    var same := FilterSharing(me, ps, true);
    if |same| > 0 {
      return Curved(GroupOffset(SortedIndex(me, same), |same| + 1), None);
    }
    c := PlanOverlapCurve(me, ps, sqrt);
  }

  /** The visual-overlap rules of `_update_curve_positioning`, for an arrow sharing no nodes with `ps`. */
  method PlanOverlapCurve(me: ArrowView, ps: seq<ArrowView>, sqrt: real -> real) returns (c: Curve)
    requires IsSqrt(sqrt) && me.line.Some? && AllLined(ps)
    ensures c == OverlapCurve(me, ps, sqrt)
  {
    var others := FilterSharing(me, ps, false);
    var mine := me.line.value;
    var lines := LinesOf(others);
    var overlap := WouldVisuallyOverlap(mine, lines, sqrt);
    if !overlap {
      return Straight;
    }
    var sameWay := AllSameDirection(Vector(mine), VectorsOf(lines));
    c := OverlapBend(me, ps, sameWay, sqrt);
  }

  /** The two loops of `_update_curve_positioning` that split the parallel arrows by shared nodes. */
  method FilterSharing(me: ArrowView, vs: seq<ArrowView>, sharing: bool) returns (r: seq<ArrowView>)
    ensures r == Sharing(me, vs, sharing)
  {
    r := [];
    var i := 0;
    while i < |vs|
      invariant 0 <= i <= |vs|
      invariant r == Sharing(me, vs[..i], sharing)
    {
      assert vs[..i + 1][..i] == vs[..i];
      if SharesEnds(me, vs[i]) == sharing {
        r := r + [vs[i]];
      }
      i := i + 1;
    }
    assert vs[..i] == vs;
  }

  /**
   * Two arrows that share both nodes and are each other's only such
   * parallel arrow curve away from each other, one by +30 and the other by
   * -30, whichever of them plans its curve.
   */
  lemma SharedPairCurvesApart(a: ArrowView, b: ArrowView, scene: Option<seq<ArrowView>>, sqrt: real -> real)
    requires IsSqrt(sqrt) && Formed(a) && Formed(b) && a.key != b.key
    requires FormedScene(scene)
    requires ParallelArrowsFor(a, scene, sqrt) != [] && Sharing(a, ParallelArrowsFor(a, scene, sqrt), true) == [b]
    requires ParallelArrowsFor(b, scene, sqrt) != [] && Sharing(b, ParallelArrowsFor(b, scene, sqrt), true) == [a]
    ensures CurvePlan(a, scene, sqrt).Curved? && CurvePlan(b, scene, sqrt).Curved?
    ensures CurvePlan(a, scene, sqrt).offset == -CurvePlan(b, scene, sqrt).offset
    ensures Abs(CurvePlan(a, scene, sqrt).offset) == BaseOffset
  {
    RankPrepend(a, a.key, [b]);
    RankPrepend(b, a.key, []);
    RankPrepend(b, b.key, [a]);
    RankPrepend(a, b.key, []);
  }

  /**
   * A curve with a stored direction comes only from a group pointing the
   * same way: it bends to the left of the arrow's line by at least 30, and
   * the direction is a unit normal of that line (zero for a zero-length line).
   */
  lemma StoredDirectionIsNormal(me: ArrowView, scene: Option<seq<ArrowView>>, sqrt: real -> real)
    requires IsSqrt(sqrt) && Formed(me)
    requires FormedScene(scene)
    requires CurvePlan(me, scene, sqrt).Curved? && CurvePlan(me, scene, sqrt).direction.Some?
    ensures me.line.Some?
    ensures CurvePlan(me, scene, sqrt).offset >= BaseOffset
    ensures Dot(CurvePlan(me, scene, sqrt).direction.value, Vector(me.line.value)) == 0.0
    ensures me.line.value.start != me.line.value.end ==> Norm2(CurvePlan(me, scene, sqrt).direction.value) == 1.0
  {
  }

  /**
   * An arrow that shares no nodes with its parallel arrows, and that no
   * parallel arrow overlaps visually, stays straight.
   */
  lemma NoVisualOverlapStaysStraight(me: ArrowView, scene: Option<seq<ArrowView>>, sqrt: real -> real)
    requires IsSqrt(sqrt) && Formed(me)
    requires FormedScene(scene)
    requires Sharing(me, ParallelArrowsFor(me, scene, sqrt), true) == []
    requires forall v :: v in ParallelArrowsFor(me, scene, sqrt) ==> !OverlapsVisually(me.line.value, v.line.value, sqrt)
    ensures CurvePlan(me, scene, sqrt) == Straight
  {
    var ps := ParallelArrowsFor(me, scene, sqrt);
    if |ps| > 0 {
      NoneSharingKeepsAll(me, ps);
      var others := LinesOf(ps);
      forall k | 0 <= k < |others|
        ensures !OverlapsVisually(me.line.value, others[k], sqrt)
      {
        assert ps[k] in ps;
      }
    }
  }

  /** An arrow without both nodes, or outside a scene, is straight. */
  lemma LooseArrowIsStraight(me: ArrowView, scene: Option<seq<ArrowView>>, sqrt: real -> real)
    requires IsSqrt(sqrt) && Formed(me)
    requires FormedScene(scene)
    requires scene.None? || me.start == null || me.end == null
    ensures CurvePlan(me, scene, sqrt) == Straight
  {
  }

  /** The parallel set of `me`, when `ps` are the arrows its parallel views come from. */
  lemma ParallelSetItems(me: ArrowView, ps: seq<ArrowItem>, scene: Option<seq<ArrowView>>, sqrt: real -> real)
    requires ViewsOf(ps) == ParallelArrowsFor(me, scene, sqrt)
    ensures ParallelSet(me, scene, sqrt) == set x | x in [me.item] + ps
  {
    var vs := [me] + ViewsOf(ps);
    forall x | x in [me.item] + ps
      ensures x in ParallelSet(me, scene, sqrt)
    {
      if x == me.item {
        assert vs[0].item == x;
      } else {
        var i :| 0 <= i < |ps| && ps[i] == x;
        assert vs[i + 1] == View(ps[i]);
      }
    }
  }

  /**
   * Surroundings of an arrow that the geometry update takes from outside:
   * the arrows of the scene the arrow is in, if any; the source node's size
   * (its bounding rectangle depends on font metrics); how many objects lie
   * beside each side of the source node, if that node is in a scene; and the
   * two nodes' boundaries, flattened from rounded rectangles into segments.
   */
  datatype Surroundings = Surroundings(
    arrows: Option<seq<ArrowItem>>,
    width: real, height: real,
    sides: Option<SideCounts>,
    startBoundary: seq<Segment>, endBoundary: seq<Segment>)

  /** The name an object goes by, if there is an object. */
  function NameOf(n: ObjectNode?): Option<string>
    reads n
  {
    if n == null then None else Some(n.baseName)
  }

  class ArrowItem {
    var start: ObjectNode?
    var end: ObjectNode?
    /** Stands for `id(self)` when arrows are sorted. */
    const key: int
    var startPoint: Point
    var endPoint: Point
    var isSelfLoop: bool
    var loopCenter: Point
    var loopRadius: real
    var isCurved: bool
    var curveOffset: real
    var curveDirection: Option<Point>
    var cp1: Point
    var cp2: Point
    /** The arrow's name, without the "~ " an isomorphism shows. */
    var text: string
    var labelVisible: bool
    var labelManuallyHidden: bool
    var pen: ArrowPen
    var brush: Brush
    /** The pen the arrow was created with; the dashed pen is derived from it. */
    const solidPen: ArrowPen
    var originalPen: ArrowPen
    var originalBrush: Brush
    var highlightColor: Option<Color>
    var thereExists: bool
    var isInclusion: bool
    var isMonomorphism: bool
    var isEpimorphism: bool
    var isIsomorphism: bool
    var isGeneral: bool
    var isKernel: bool

    function StyleFlags(): Styles
      reads this`isInclusion, this`isMonomorphism, this`isEpimorphism, this`isIsomorphism, this`isGeneral
    {
      Styles(isInclusion, isMonomorphism, isEpimorphism, isIsomorphism, isGeneral)
    }

    /**
     * Highlighting is off exactly when the original pen and brush are in use;
     * the original pen is the solid pen, dashed for "there exists"; the
     * general style excludes the others; a kernel arrow is an inclusion.
     */
    predicate Valid()
      reads this`highlightColor, this`pen, this`brush, this`originalPen, this`originalBrush, this`thereExists
      reads this`isInclusion, this`isMonomorphism, this`isEpimorphism, this`isIsomorphism, this`isGeneral, this`isKernel
    {
      (highlightColor.None? ==> pen == originalPen && brush == originalBrush)
      && originalPen == StyledPen(solidPen, thereExists)
      && GeneralExclusive(StyleFlags())
      && (isKernel ==> isInclusion)
    }

    function IsKernelArrow(): bool
      reads this`isKernel, this`text
    {
      IsKernelName(isKernel, text)
    }

    predicate ShouldHideLabel()
      reads this`text, this`start, this`end, start, end
    {
      HidesLabel(text, NameOf(start), NameOf(end))
    }

    /**
     * `Arrow(start_node, end_node, text)`: a grey, solid, general arrow,
     * placed between its nodes outside any scene, with its label shown
     * unless the hiding rule applies.
     */
    constructor(startNode: ObjectNode?, endNode: ObjectNode?, text: string, key: int, env: Surroundings, sqrt: real -> real)
      requires IsSqrt(sqrt)
      ensures start == startNode && end == endNode && this.text == text && this.key == key
      ensures StyleFlags() == GeneralOnly && !isKernel && !thereExists
      ensures pen == DefaultPen && brush == Brush(ArrowGray) && highlightColor == None
      ensures labelVisible == !ShouldHideLabel() && !labelManuallyHidden
      ensures isSelfLoop <==> startNode != null && startNode == endNode
      ensures !isCurved && curveOffset == 0.0
      ensures startNode == null || endNode == null ==>
        startPoint == Origin && endPoint == Point(100.0, 0.0) && loopRadius == 50.0
      ensures startNode != null && startNode == endNode ==> LoopPlaced(env)
      ensures startNode != null && endNode != null && startNode != endNode ==> EdgesPlaced(env, sqrt)
      ensures Valid()
    {
      start, end := startNode, endNode;
      this.key := key;
      startPoint, endPoint := Origin, Point(100.0, 0.0);
      isSelfLoop := false;
      loopCenter, loopRadius := Origin, 50.0;
      // `update_position` before the arrow is in a scene: no arrow is
      // parallel to it there, so it stays straight (LooseArrowIsStraight).
      if startNode != null && endNode != null {
        if startNode == endNode {
          var g := SelfLoop(startNode.pos, env.width, env.height, BestLoopSide(env.sides));
          startPoint, endPoint, loopCenter, loopRadius := g.start, g.end, g.center, g.radius;
          isSelfLoop := true;
        } else {
          var from := EdgeIntersection(startNode.pos, endNode.pos, env.startBoundary, sqrt);
          var to := EdgeIntersection(endNode.pos, startNode.pos, env.endBoundary, sqrt);
          startPoint, endPoint := from, to;
        }
      }
      isCurved, curveOffset, curveDirection := false, 0.0, None;
      cp1, cp2 := Origin, Origin;
      this.text := text;
      // `_update_label_visibility` with the new nodes.
      labelVisible, labelManuallyHidden := !HidesLabel(text, NameOf(startNode), NameOf(endNode)), false;
      pen := DefaultPen;
      brush := Brush(ArrowGray);
      thereExists := false;
      solidPen := DefaultPen;
      isInclusion, isMonomorphism, isEpimorphism, isIsomorphism, isGeneral := false, false, false, false, true;
      isKernel := false;
      highlightColor := None;
      originalPen, originalBrush := DefaultPen, Brush(ArrowGray);
    }

    method GetText() returns (t: string)
      ensures t == DisplayedText(text, isIsomorphism)
    {
      t := if isIsomorphism then "~ " + text else text;
    }

    method GetBaseName() returns (t: string)
      ensures t == text
    {
      t := text;
    }

    method SetText(t: string)
      modifies this`text
      ensures text == t
    {
      text := t;
    }

    /** Renames the arrow; a real change re-evaluates whether the label hides. */
    method SetBaseName(name: string)
      modifies this`text, this`labelVisible
      ensures text == name
      ensures old(text) != name ==> labelVisible == !ShouldHideLabel()
      ensures old(text) == name ==> labelVisible == old(labelVisible)
    {
      var oldText := text;
      SetText(name);
      if oldText != name {
        UpdateLabelVisibility();
      }
    }

    method UpdateLabelVisibility()
      modifies this`labelVisible
      ensures labelVisible == !ShouldHideLabel()
    {
      var hidden := ShouldHideLabel();
      if labelVisible == hidden {
        labelVisible := !hidden;
      }
    }

    method ToggleLabelVisibility()
      modifies this`labelManuallyHidden
      ensures labelManuallyHidden == !old(labelManuallyHidden)
    {
      labelManuallyHidden := !labelManuallyHidden;
    }

    /** The "there exists" state draws the arrow dashed; the pen to restore after highlighting follows. */
    method SetThereExists(exists_: bool)
      requires Valid()
      modifies this`thereExists, this`pen, this`originalPen
      ensures thereExists == exists_ && pen == StyledPen(solidPen, exists_) && originalPen == pen
      ensures Valid()
    {
      thereExists := exists_;
      UpdatePenStyle();
    }

    method ToggleThereExists()
      requires Valid()
      modifies this`thereExists, this`pen, this`originalPen
      ensures thereExists == !old(thereExists) && pen == StyledPen(solidPen, thereExists) && originalPen == pen
      ensures Valid()
    {
      SetThereExists(!thereExists);
    }

    method UpdatePenStyle()
      modifies this`pen, this`originalPen
      ensures pen == StyledPen(solidPen, thereExists) && originalPen == pen
    {
      if thereExists {
        pen := solidPen.(style := DashLine);
      } else {
        pen := solidPen;
      }
      originalPen := pen;
    }

    method ToggleInclusion()
      requires Valid()
      modifies this`isInclusion, this`isGeneral
      ensures StyleFlags() == Toggled(old(StyleFlags()), old(IsKernelArrow()), Inclusion)
      ensures Valid()
    {
      ToggleKeepsGeneralExclusive(StyleFlags(), IsKernelArrow(), Inclusion);
      if IsKernelArrow() {
        return;
      }
      isInclusion := !isInclusion;
      if isInclusion {
        isGeneral := false;
      }
    }

    method ToggleMonomorphism()
      requires Valid()
      modifies this`isMonomorphism, this`isGeneral
      ensures StyleFlags() == Toggled(old(StyleFlags()), old(IsKernelArrow()), Monomorphism)
      ensures Valid()
    {
      ToggleKeepsGeneralExclusive(StyleFlags(), IsKernelArrow(), Monomorphism);
      if IsKernelArrow() {
        return;
      }
      isMonomorphism := !isMonomorphism;
      if isMonomorphism {
        isGeneral := false;
      }
    }

    method ToggleEpimorphism()
      requires Valid()
      modifies this`isEpimorphism, this`isGeneral
      ensures StyleFlags() == Toggled(old(StyleFlags()), old(IsKernelArrow()), Epimorphism)
      ensures Valid()
    {
      ToggleKeepsGeneralExclusive(StyleFlags(), IsKernelArrow(), Epimorphism);
      isEpimorphism := !isEpimorphism;
      if isEpimorphism {
        isGeneral := false;
      }
    }

    method ToggleIsomorphism()
      requires Valid()
      modifies this`isIsomorphism, this`isGeneral
      ensures StyleFlags() == Toggled(old(StyleFlags()), old(IsKernelArrow()), Isomorphism)
      ensures Valid()
    {
      ToggleKeepsGeneralExclusive(StyleFlags(), IsKernelArrow(), Isomorphism);
      isIsomorphism := !isIsomorphism;
      if isIsomorphism {
        isGeneral := false;
      }
    }

    method ToggleGeneral()
      requires Valid()
      modifies this`isInclusion, this`isMonomorphism, this`isEpimorphism, this`isIsomorphism, this`isGeneral
      ensures StyleFlags() == Toggled(old(StyleFlags()), old(IsKernelArrow()), General)
      ensures Valid()
    {
      if IsKernelArrow() {
        return;
      }
      if !isGeneral {
        isGeneral := true;
        isInclusion, isMonomorphism, isEpimorphism, isIsomorphism := false, false, false, false;
      }
    }

    /** Marks the arrow as a kernel arrow, which makes it an inclusion and nothing else. */
    method SetAsKernelArrow()
      requires Valid()
      modifies this`isKernel, this`isInclusion, this`isMonomorphism, this`isEpimorphism, this`isIsomorphism, this`isGeneral
      ensures isKernel && IsKernelArrow() && StyleFlags() == KernelStyles
      ensures Valid()
    {
      isKernel := true;
      isInclusion := true;
      isMonomorphism, isEpimorphism, isIsomorphism, isGeneral := false, false, false, false;
    }

    /**
     * A highlight colour draws the arrow 4 wide in that colour with a head of
     * that colour; no colour restores the original pen and brush.
     */
    method SetHighlightColor(color: Option<Color>)
      requires Valid()
      modifies this`highlightColor, this`pen, this`brush
      ensures highlightColor == color
      ensures color.Some? ==> pen == ArrowPen(color.value, 4, SolidLine) && brush == Brush(color.value)
      ensures color.None? ==> pen == originalPen && brush == originalBrush
      ensures Valid()
    {
      highlightColor := color;
      if color.Some? {
        pen := ArrowPen(color.value, 4, SolidLine);
        brush := Brush(color.value);
      } else {
        pen := originalPen;
        brush := originalBrush;
      }
    }

    method ClearHighlightColor()
      requires Valid()
      modifies this`highlightColor, this`pen, this`brush
      ensures highlightColor == None && pen == originalPen && brush == originalBrush
      ensures Valid()
    {
      SetHighlightColor(None);
    }

    method GetSource() returns (n: ObjectNode?)
      ensures n == start
    {
      n := start;
    }

    method GetTarget() returns (n: ObjectNode?)
      ensures n == end
    {
      n := end;
    }

    /**
     * `edit_name` once the rename dialog has closed: the name to push a
     * RenameArrow command for, if the dialog was accepted with a new,
     * non-empty name.
     */
    method EditName(accepted: Option<string>) returns (rename: Option<string>)
      ensures rename.Some? <==> accepted.Some? && accepted.value != "" && accepted.value != text
      ensures rename.Some? ==> rename == accepted
    {
      rename := RenameRequest(accepted, text);
    }

    // ------------------------------------------------------------ placement

    method FindParallelArrows(scene: Option<seq<ArrowItem>>, sqrt: real -> real) returns (ps: seq<ArrowItem>)
      ensures ViewsOf(ps) == ParallelArrowsFor(View(this), SceneViews(scene), sqrt)
    {
      if scene.None? || start == null || end == null {
        return [];
      }
      var arrows := scene.value;
      var mine := ArrowLine(this);
      ps := [];
      var i := 0;
      while i < |arrows|
        invariant 0 <= i <= |arrows|
        invariant ViewsOf(ps) == ParallelViews(View(this), ViewsOf(arrows[..i]), sqrt)
      {
        var a := arrows[i];
        assert arrows[..i + 1] == arrows[..i] + [a];
        assert ViewsOf(arrows[..i + 1]) == ViewsOf(arrows[..i]) + [View(a)];
        assert ViewsOf(arrows[..i + 1])[..i] == ViewsOf(arrows[..i]);
        if a != this && a.start != null && a.end != null && ParallelAndOverlapping(mine, ArrowLine(a), sqrt) {
          assert ViewsOf(ps + [a]) == ViewsOf(ps) + [View(a)];
          ps := ps + [a];
        }
        i := i + 1;
      }
      assert arrows[..i] == arrows;
    }

    /** `_get_parallel_set`: the arrow itself, then its parallel arrows; as a set, `ParallelSet`. */
    method GetParallelSet(scene: Option<seq<ArrowItem>>, sqrt: real -> real) returns (ps: seq<ArrowItem>)
      ensures |ps| >= 1 && ps[0] == this
      ensures (set a | a in ps) == ParallelSet(View(this), SceneViews(scene), sqrt)
    {
      ghost var views, me := SceneViews(scene), View(this);
      var parallels := FindParallelArrows(scene, sqrt);
      ViewsKept(SceneArrows(scene));
      ParallelSetItems(me, parallels, views, sqrt);
      ps := [this] + parallels;
    }

    /**
     * `_are_parallel`: the other arrow has both nodes, and both arrows see
     * the same parallel set, of more than one arrow.
     */
    method AreParallel(other: ArrowItem, scene: Option<seq<ArrowItem>>, sqrt: real -> real) returns (b: bool)
      ensures b <==> AreParallelViews(View(this), View(other), SceneViews(scene), sqrt)
    {
      if other.start == null || other.end == null {
        return false;
      }
      var mine := GetParallelSet(scene, sqrt);
      label mineFound:
      var theirs := other.GetParallelSet(scene, sqrt);
      ViewsKept@mineFound(SceneArrows(scene));
      var mySet := set a | a in mine;
      var otherSet := set a | a in theirs;
      b := mySet == otherSet && |mySet| > 1;
    }

    /** The curve `_update_curve_positioning` chooses, computed from the scene before anything is written. */
    method PlanCurve(scene: Option<seq<ArrowItem>>, sqrt: real -> real) returns (c: Curve)
      requires IsSqrt(sqrt)
      ensures c == CurvePlan(View(this), SceneViews(scene), sqrt)
    {
      ghost var views := SceneViews(scene);
      var me := View(this);
      var parallels := FindParallelArrows(scene, sqrt);
      ViewsKept(SceneArrows(scene));
      var ps := ViewsOf(parallels);
      if |parallels| == 0 {
        return Straight;
      }
      assert AllLined(ps) by {
        forall v | v in ps
          ensures v.line.Some?
        {
          assert v in views.value;
        }
      }
      c := PlanGroupCurve(me, ps, sqrt);
      ViewsKept(SceneArrows(scene));
    }

    /** The normal the control points are pushed along: the stored direction, else the unit normal of the drawn line. */
    function BendNormal(sqrt: real -> real): Point
      reads this`curveDirection, this`startPoint, this`endPoint
      requires IsSqrt(sqrt)
    {
      if curveDirection.Some? then curveDirection.value else UnitNormal(startPoint, endPoint, sqrt)
    }

    /**
     * The control points after `_calculate_bezier_control_points`: unchanged
     * for a straight arrow or while an end point is the origin (a null
     * `QPointF` is false), else 0.3 and 0.7 of the way along the drawn line,
     * pushed by the curve offset along the bend normal.
     */
    predicate Bent(cp1Before: Point, cp2Before: Point, sqrt: real -> real)
      reads this`isCurved, this`curveOffset, this`curveDirection, this`startPoint, this`endPoint, this`cp1, this`cp2
      requires IsSqrt(sqrt)
    {
      if !isCurved || startPoint == Origin || endPoint == Origin then cp1 == cp1Before && cp2 == cp2Before
      else (cp1, cp2) == BezierControlPoints(startPoint, endPoint, BendNormal(sqrt), curveOffset)
    }

    /**
     * The arrow shows curve `c`: a straight arrow is not curved and has
     * offset 0, keeping its direction and control points; a curved arrow
     * has the offset and direction of `c` and its control points bent.
     */
    predicate ShowsCurve(c: Curve, directionBefore: Option<Point>, cp1Before: Point, cp2Before: Point, sqrt: real -> real)
      reads this`isCurved, this`curveOffset, this`curveDirection, this`startPoint, this`endPoint, this`cp1, this`cp2
      requires IsSqrt(sqrt)
    {
      match c
      case Straight =>
        !isCurved && curveOffset == 0.0 && curveDirection == directionBefore && cp1 == cp1Before && cp2 == cp2Before
      case Curved(offset, direction) =>
        isCurved && curveOffset == offset && curveDirection == direction && Bent(cp1Before, cp2Before, sqrt)
    }

    method CalculateBezierControlPoints(sqrt: real -> real)
      requires IsSqrt(sqrt)
      modifies this`cp1, this`cp2
      ensures Bent(old(cp1), old(cp2), sqrt)
    {
      if !isCurved || startPoint == Origin || endPoint == Origin {
        return;
      }
      var normal := if curveDirection.Some? then curveDirection.value else UnitNormal(startPoint, endPoint, sqrt);
      var cps := BezierControlPoints(startPoint, endPoint, normal, curveOffset);
      cp1, cp2 := cps.0, cps.1;
    }

    /** Writes a planned curve into the arrow and bends its control points. */
    method ApplyCurve(c: Curve, sqrt: real -> real)
      requires IsSqrt(sqrt)
      modifies this`isCurved, this`curveOffset, this`curveDirection, this`cp1, this`cp2
      ensures ShowsCurve(c, old(curveDirection), old(cp1), old(cp2), sqrt)
    {
      match c
      case Straight =>
        isCurved, curveOffset := false, 0.0;
      case Curved(offset, direction) =>
        isCurved, curveOffset, curveDirection := true, offset, direction;
        CalculateBezierControlPoints(sqrt);
    }

    /** `_update_curve_positioning`: the planned curve, shown. */
    method UpdateCurvePositioning(scene: Option<seq<ArrowItem>>, sqrt: real -> real)
      requires IsSqrt(sqrt)
      modifies this`isCurved, this`curveOffset, this`curveDirection, this`cp1, this`cp2
      ensures ShowsCurve(old(CurvePlan(View(this), SceneViews(scene), sqrt)), old(curveDirection), old(cp1), old(cp2), sqrt)
    {
      var c := PlanCurve(scene, sqrt);
      ViewsKept(SceneArrows(scene));
      ApplyCurve(c, sqrt);
    }

    /** The self-loop on the best side of the source node is in place. */
    predicate LoopPlaced(env: Surroundings)
      reads this`start, start, this`startPoint, this`endPoint, this`loopCenter, this`loopRadius, this`isSelfLoop
      requires start != null
    {
      var g := SelfLoop(start.pos, env.width, env.height, BestLoopSide(env.sides));
      startPoint == g.start && endPoint == g.end && loopCenter == g.center && loopRadius == g.radius && isSelfLoop
    }

    /** `_update_self_loop_position`, with `_find_best_loop_side` choosing the side. */
    method UpdateSelfLoopPosition(env: Surroundings)
      requires start != null
      modifies this`startPoint, this`endPoint, this`loopCenter, this`loopRadius, this`isSelfLoop
      ensures LoopPlaced(env)
    {
      var side := BestLoopSide(env.sides);
      var g := SelfLoop(start.pos, env.width, env.height, side);
      startPoint, endPoint, loopCenter := g.start, g.end, g.center;
      loopRadius := g.radius;
      isSelfLoop := true;
    }

    /**
     * Each end point is where the line between the node centres leaves its
     * node: the nearest boundary hit towards the other node (EdgePointIsNearestHit).
     */
    predicate EdgesPlaced(env: Surroundings, sqrt: real -> real)
      reads this`start, this`end, start`pos, end`pos, this`startPoint, this`endPoint
      requires IsSqrt(sqrt) && start != null && end != null
    {
      startPoint == EdgePoint(start.pos, end.pos, env.startBoundary, sqrt)
      && endPoint == EdgePoint(end.pos, start.pos, env.endBoundary, sqrt)
    }

    /** `_update_normal_arrow_position`: both end points on the node boundaries. */
    method UpdateNormalArrowPosition(env: Surroundings, sqrt: real -> real)
      requires IsSqrt(sqrt) && start != null && end != null
      modifies this`startPoint, this`endPoint
      ensures EdgesPlaced(env, sqrt)
    {
      startPoint := EdgeIntersection(start.pos, end.pos, env.startBoundary, sqrt);
      endPoint := EdgeIntersection(end.pos, start.pos, env.endBoundary, sqrt);
    }

    /**
     * `update_position`: nothing without both nodes; a self-loop when both
     * ends are one node; otherwise the end points on the node boundaries and
     * the curve the scene calls for. The self-loop flag is never cleared.
     */
    method UpdatePosition(env: Surroundings, sqrt: real -> real)
      requires IsSqrt(sqrt)
      modifies this`startPoint, this`endPoint, this`loopCenter, this`loopRadius, this`isSelfLoop
      modifies this`isCurved, this`curveOffset, this`curveDirection, this`cp1, this`cp2
      ensures start == null || end == null ==> unchanged(this)
      ensures start != null && start == end ==>
        (LoopPlaced(env)
         && isCurved == old(isCurved) && curveOffset == old(curveOffset) && curveDirection == old(curveDirection)
         && cp1 == old(cp1) && cp2 == old(cp2))
      ensures start != null && end != null && start != end ==>
        (EdgesPlaced(env, sqrt)
         && isSelfLoop == old(isSelfLoop) && loopCenter == old(loopCenter) && loopRadius == old(loopRadius)
         && ShowsCurve(old(CurvePlan(View(this), SceneViews(env.arrows), sqrt)), old(curveDirection), old(cp1), old(cp2), sqrt))
    {
      if start == null || end == null {
        return;
      }
      if start == end {
        UpdateSelfLoopPosition(env);
        return;
      }
      // The curve depends on the nodes' positions only, not on the end points
      // written next, so it can be chosen first.
      ghost var plan := CurvePlan(View(this), SceneViews(env.arrows), sqrt);
      var c := PlanCurve(env.arrows, sqrt);
      ViewsKept(SceneArrows(env.arrows));
      assert c == plan;
      UpdateNormalArrowPosition(env, sqrt);
      ApplyCurve(c, sqrt);
    }

    /**
     * `set_nodes`: connects the arrow to `s` and `e`, then places it between
     * them (self-loop, edge points and curve, exactly as `UpdatePosition`)
     * and recomputes whether the label shows for the new node names.
     */
    method SetNodes(s: ObjectNode?, e: ObjectNode?, env: Surroundings, sqrt: real -> real)
      requires IsSqrt(sqrt)
      modifies this`start, this`end, this`labelVisible
      modifies this`startPoint, this`endPoint, this`loopCenter, this`loopRadius, this`isSelfLoop
      modifies this`isCurved, this`curveOffset, this`curveDirection, this`cp1, this`cp2
      ensures start == s && end == e
      ensures s == null || e == null ==>
        (startPoint == old(startPoint) && endPoint == old(endPoint) && isSelfLoop == old(isSelfLoop)
         && loopCenter == old(loopCenter) && loopRadius == old(loopRadius)
         && isCurved == old(isCurved) && curveOffset == old(curveOffset) && curveDirection == old(curveDirection)
         && cp1 == old(cp1) && cp2 == old(cp2))
      ensures s != null && s == e ==>
        (LoopPlaced(env)
         && isCurved == old(isCurved) && curveOffset == old(curveOffset) && curveDirection == old(curveDirection)
         && cp1 == old(cp1) && cp2 == old(cp2))
      ensures s != null && e != null && s != e ==>
        (EdgesPlaced(env, sqrt)
         && isSelfLoop == old(isSelfLoop) && loopCenter == old(loopCenter) && loopRadius == old(loopRadius)
         && ShowsCurve(CurvePlan(View(this), SceneViews(env.arrows), sqrt), old(curveDirection), old(cp1), old(cp2), sqrt))
      ensures labelVisible == !ShouldHideLabel()
    {
      Reconnect(s, e, env, sqrt);
      label placed:
      UpdateLabelVisibility();
      ViewsKept@placed(SceneArrows(env.arrows));
    }

    /** The first part of `set_nodes`: the new nodes, and the arrow placed between them. */
    method Reconnect(s: ObjectNode?, e: ObjectNode?, env: Surroundings, sqrt: real -> real)
      requires IsSqrt(sqrt)
      modifies this`start, this`end
      modifies this`startPoint, this`endPoint, this`loopCenter, this`loopRadius, this`isSelfLoop
      modifies this`isCurved, this`curveOffset, this`curveDirection, this`cp1, this`cp2
      ensures start == s && end == e
      ensures s == null || e == null ==>
        (startPoint == old(startPoint) && endPoint == old(endPoint) && isSelfLoop == old(isSelfLoop)
         && loopCenter == old(loopCenter) && loopRadius == old(loopRadius)
         && isCurved == old(isCurved) && curveOffset == old(curveOffset) && curveDirection == old(curveDirection)
         && cp1 == old(cp1) && cp2 == old(cp2))
      ensures s != null && s == e ==>
        (LoopPlaced(env)
         && isCurved == old(isCurved) && curveOffset == old(curveOffset) && curveDirection == old(curveDirection)
         && cp1 == old(cp1) && cp2 == old(cp2))
      ensures s != null && e != null && s != e ==>
        (EdgesPlaced(env, sqrt)
         && isSelfLoop == old(isSelfLoop) && loopCenter == old(loopCenter) && loopRadius == old(loopRadius)
         && ShowsCurve(CurvePlan(View(this), SceneViews(env.arrows), sqrt), old(curveDirection), old(cp1), old(cp2), sqrt))
    {
      start := s;
      end := e;
      label connected:
      UpdatePosition(env, sqrt);
      if s != null && e != null && s != e {
        ViewsKept@connected(SceneArrows(env.arrows));
      }
    }
  }
}
