/**
 * The checkable rules of the main window: diagram tab names, the automatic
 * grid spacing, the window title, the modified flag and closing a tab. A
 * tab's diagram is reduced to what these rules touch: the identity of its
 * scene, the tab's name, the positions of the scene's items and the scene's
 * grid size.
 */
module MainWindow {
  import opened Wrappers
  import opened Geometry
  import opened Text

  // ---------------------------------------------------------------- diagram names

  /** The math-calligraphy capital for letter `i` of A..Z (`math_cal_base`). */
  function Calligraphic(i: nat): char
    requires i < 26
  {
    match i
    case 0 => '\U{1D49C}'  case 1 => '\U{212C}'   case 2 => '\U{1D49E}'  case 3 => '\U{1D49F}'
    case 4 => '\U{2130}'   case 5 => '\U{2131}'   case 6 => '\U{1D4A2}'  case 7 => '\U{210B}'
    case 8 => '\U{2110}'   case 9 => '\U{1D4A5}'  case 10 => '\U{1D4A6}' case 11 => '\U{2112}'
    case 12 => '\U{2133}'  case 13 => '\U{1D4A9}' case 14 => '\U{1D4AA}' case 15 => '\U{1D4AB}'
    case 16 => '\U{1D4AC}' case 17 => '\U{211B}'  case 18 => '\U{1D4AE}' case 19 => '\U{1D4AF}'
    case 20 => '\U{1D4B0}' case 21 => '\U{1D4B1}' case 22 => '\U{1D4B2}' case 23 => '\U{1D4B3}'
    case 24 => '\U{1D4B4}' case _ => '\U{1D4B5}'
  }

  /** The letter index a math-calligraphy capital stands for, if it is one. */
  function LetterOf(c: char): Option<nat>
  {
    match c
    case '\U{1D49C}' => Some(0)  case '\U{212C}' => Some(1)   case '\U{1D49E}' => Some(2)
    case '\U{1D49F}' => Some(3)  case '\U{2130}' => Some(4)   case '\U{2131}' => Some(5)
    case '\U{1D4A2}' => Some(6)  case '\U{210B}' => Some(7)   case '\U{2110}' => Some(8)
    case '\U{1D4A5}' => Some(9)  case '\U{1D4A6}' => Some(10) case '\U{2112}' => Some(11)
    case '\U{2133}' => Some(12)  case '\U{1D4A9}' => Some(13) case '\U{1D4AA}' => Some(14)
    case '\U{1D4AB}' => Some(15) case '\U{1D4AC}' => Some(16) case '\U{211B}' => Some(17)
    case '\U{1D4AE}' => Some(18) case '\U{1D4AF}' => Some(19) case '\U{1D4B0}' => Some(20)
    case '\U{1D4B1}' => Some(21) case '\U{1D4B2}' => Some(22) case '\U{1D4B3}' => Some(23)
    case '\U{1D4B4}' => Some(24) case '\U{1D4B5}' => Some(25)
    case _ => None
  }

  /** Each capital is read back as its own letter index. */
  lemma LetterOfCalligraphic(i: nat)
    requires i < 26
    ensures LetterOf(Calligraphic(i)) == Some(i)
  {
  }

  /**
   * `get_math_calligraphy_name`: the capital for `index % 26` followed by
   * `index // 26` apostrophes.
   */
  function DiagramName(index: nat): string
  {
    [Calligraphic(index % 26)] + Repeat('\'', index / 26)
  }

  /** Reads a diagram name back as the counter value that produced it. */
  function DiagramIndex(name: string): Option<nat>
  {
    if |name| == 0 || LetterOf(name[0]).None? || LetterOf(name[0]).value >= 26
       || exists k :: 1 <= k < |name| && name[k] != '\''
    then None
    else Some(LetterOf(name[0]).value + 26 * (|name| - 1))
  }

  /** Every diagram name reads back as its index. */
  lemma DiagramNameRoundTrip(index: nat)
    ensures DiagramIndex(DiagramName(index)) == Some(index)
  {
    var name := DiagramName(index);
    LetterOfCalligraphic(index % 26);
    assert name[0] == Calligraphic(index % 26);
    assert forall k :: 1 <= k < |name| ==> name[k] == Repeat('\'', index / 26)[k - 1];
  }

  /** Distinct counter values give distinct tab names. */
  lemma DiagramNamesDistinct(i: nat, j: nat)
    requires i != j
    ensures DiagramName(i) != DiagramName(j)
  {
    DiagramNameRoundTrip(i);
    DiagramNameRoundTrip(j);
  }

  // ---------------------------------------------------------------- grid spacing

  /** The spacing the automatic rule never goes below. */
  const MinSpacing: int := 50
  /** The spacing the automatic rule never goes above. */
  const MaxSpacing: int := 500
  /** An arrow at most this long makes the grid coarser. */
  const ShortArrow: real := 50.0

  /** `min(arrow_lengths)`. */
  function Shortest(lengths: seq<real>): (m: real)
    requires |lengths| > 0
    ensures m in lengths
    ensures forall k :: 0 <= k < |lengths| ==> m <= lengths[k]
  {
    if |lengths| == 1 then lengths[0]
    else
      var rest := Shortest(lengths[1..]);
      assert forall k :: 1 <= k < |lengths| ==> lengths[k] == lengths[1..][k - 1];
      if lengths[0] <= rest then lengths[0] else rest
  }

  /** Every arrow is at least 80% of the spacing long. */
  predicate AllLong(lengths: seq<real>, spacing: int)
  {
    forall k :: 0 <= k < |lengths| ==> lengths[k] >= spacing as real * 0.8
  }

  function MinInt(a: int, b: int): int { if a <= b then a else b }
  function MaxInt(a: int, b: int): int { if a >= b then a else b }

  /**
   * The spacing `check_and_adjust_grid_spacing` leaves, given the lengths of
   * the scene's arrows: a short arrow doubles the spacing up to 500, and only
   * when that changes nothing are all-long arrows allowed to halve it (floor
   * division) down to 50.
   */
  function NextSpacing(spacing: int, lengths: seq<real>): int
  {
    if |lengths| == 0 then spacing
    else if Shortest(lengths) <= ShortArrow && MinInt(spacing * 2, MaxSpacing) != spacing then
      MinInt(spacing * 2, MaxSpacing)
    else if AllLong(lengths, spacing) then MaxInt(spacing / 2, MinSpacing)
    else spacing
  }

  /** A short arrow doubles a positive spacing (capped at 500) and never lets it be halved. */
  lemma ShortArrowDoubles(spacing: int, lengths: seq<real>)
    requires spacing > 0 && |lengths| > 0
    requires exists k :: 0 <= k < |lengths| && lengths[k] <= ShortArrow
    ensures NextSpacing(spacing, lengths) == MinInt(2 * spacing, MaxSpacing)
    ensures spacing <= MaxSpacing ==> NextSpacing(spacing, lengths) >= spacing
  {
    var m := Shortest(lengths);
    if MinInt(spacing * 2, MaxSpacing) == spacing {
      assert spacing == MaxSpacing;
      assert !AllLong(lengths, spacing);
    }
  }

  /** With no short arrow, all-long arrows halve the spacing (not below 50) and anything else keeps it. */
  lemma LongArrowsHalve(spacing: int, lengths: seq<real>)
    requires |lengths| > 0
    requires forall k :: 0 <= k < |lengths| ==> lengths[k] > ShortArrow
    ensures AllLong(lengths, spacing) ==> NextSpacing(spacing, lengths) == MaxInt(spacing / 2, MinSpacing)
    ensures !AllLong(lengths, spacing) ==> NextSpacing(spacing, lengths) == spacing
  {
    var m := Shortest(lengths);
    assert m > ShortArrow;
  }

  /**
   * A scene item as the spacing check sees it: whether its class defines
   * `get_source`, `get_target` and `get_length`, and the length it would report.
   */
  datatype SceneItem = SceneItem(hasSource: bool, hasTarget: bool, hasLength: bool, length: real)

  /**
   * The item classes of this code base: the arrow classes define
   * `get_source` and `get_target`, the Objects and labels neither, and no
   * class defines `get_length`.
   */
  predicate OfCodeBase(item: SceneItem)
  {
    !item.hasLength && (item.hasSource <==> item.hasTarget)
  }

  /** The lengths the check collects, in item order: those of the items that define all three methods. */
  function MeasuredLengths(items: seq<SceneItem>): (r: seq<real>)
    ensures |r| <= |items|
    ensures forall x :: x in r ==> exists k :: 0 <= k < |items| && items[k].hasLength && items[k].length == x
  {
    if items == [] then []
    else
      var item := items[|items| - 1];
      var rest := MeasuredLengths(items[..|items| - 1]);
      assert forall k :: 0 <= k < |items| - 1 ==> items[..|items| - 1][k] == items[k];
      rest + (if item.hasSource && item.hasTarget && item.hasLength then [item.length] else [])
  }

  /** In a scene of this code base's items the check collects no length at all. */
  lemma {:induction false} NothingMeasured(items: seq<SceneItem>)
    requires forall k :: 0 <= k < |items| ==> OfCodeBase(items[k])
    ensures MeasuredLengths(items) == []
  {
    if items != [] {
      NothingMeasured(items[..|items| - 1]);
    }
  }

  /**
   * As written, an arrow of 10 in a scene gridded at 150 leaves the spacing
   * at 150, where the rule the check states would double it to 300.
   */
  lemma SourceSpacingNeverAdjusts()
    ensures NextSpacing(150, MeasuredLengths([SceneItem(true, true, false, 10.0)])) == 150
    ensures NextSpacing(150, [10.0]) == 300
  {
    NothingMeasured([SceneItem(true, true, false, 10.0)]);
    assert [10.0][0] <= ShortArrow;
    ShortArrowDoubles(150, [10.0]);
  }

  /** A spacing in [50, 500] stays there. */
  lemma SpacingStaysInRange(spacing: int, lengths: seq<real>)
    requires MinSpacing <= spacing <= MaxSpacing
    ensures MinSpacing <= NextSpacing(spacing, lengths) <= MaxSpacing
  {
  }

  /** `item.pos() * scale_factor` for every item. */
  function Scaled(positions: seq<Point>, factor: real): (r: seq<Point>)
    ensures |r| == |positions|
  {
    seq(|positions|, k requires 0 <= k < |positions| => Scale(factor, positions[k]))
  }

  /** Scaling by a factor and then by its inverse puts every item back. */
  lemma ScaledBack(positions: seq<Point>, factor: real)
    requires factor != 0.0
    ensures Scaled(Scaled(positions, factor), 1.0 / factor) == positions
  {
    var back := Scaled(Scaled(positions, factor), 1.0 / factor);
    forall k | 0 <= k < |positions|
      ensures back[k] == positions[k]
    {
      var p := positions[k];
      calc {
        back[k];
        Point((1.0 / factor) * (factor * p.x), (1.0 / factor) * (factor * p.y));
        { assert (1.0 / factor) * factor == 1.0; }
        p;
      }
    }
  }

  /** `new_spacing / old_spacing`, or 1.0 when the old spacing is not positive. */
  function ScaleFactor(oldSpacing: int, newSpacing: int): real
  {
    if oldSpacing > 0 then newSpacing as real / oldSpacing as real else 1.0
  }

  /** A tab's scene after `_update_grid_spacing`: items scaled when the factor differs by more than 1%. */
  function Regridded(tab: Tab, oldSpacing: int, newSpacing: int): Tab
  {
    var factor := ScaleFactor(oldSpacing, newSpacing);
    tab.(positions := if Abs(factor - 1.0) > 0.01 then Scaled(tab.positions, factor) else tab.positions,
         gridSize := newSpacing)
  }

  /** Doubling and then halving back puts the items where they were. */
  lemma DoubleThenHalve(tab: Tab, spacing: int)
    requires spacing > 0
    ensures Regridded(Regridded(tab, spacing, 2 * spacing), 2 * spacing, spacing).positions == tab.positions
  {
    var s := spacing as real;
    assert (2 * spacing) as real == 2.0 * s;
    assert ScaleFactor(spacing, 2 * spacing) == 2.0 * s / s == 2.0;
    assert ScaleFactor(2 * spacing, spacing) == s / (2.0 * s) == 1.0 / 2.0;
    ScaledBack(tab.positions, 2.0);
  }

  // ---------------------------------------------------------------- window title

  const AppTitle: string := "Pythom - DAG Diagram Editor"

  /** `os.path.basename`: what follows the last '/'. */
  function Basename(path: string): (r: string)
    ensures '/' !in r
    ensures EndsWith(path, r)
    ensures r == path || (|r| < |path| && path[|path| - |r| - 1] == '/')
  {
    path[RFind(path, '/') + 1..]
  }

  /** `if self.current_file:` — a file is current and its path is not empty. */
  predicate FileShown(file: Option<string>)
  {
    file.Some? && file.value != ""
  }

  /** `_update_window_title`: "* " when modified, then the file's name and " - " when a file is current, then the application title. */
  function Title(file: Option<string>, modified: bool): string
  {
    var named := if FileShown(file) then Basename(file.value) + " - " + AppTitle else AppTitle;
    if modified then "* " + named else named
  }

  /**
   * The title always ends with the application title; it names the file
   * exactly when one is current; it starts with "* " when modified, and
   * otherwise only when the file's own name starts with "* " or is "*".
   */
  lemma TitleParts(file: Option<string>, modified: bool)
    ensures EndsWith(Title(file, modified), AppTitle)
    ensures FileShown(file) ==> EndsWith(Title(file, modified), Basename(file.value) + " - " + AppTitle)
    ensures !FileShown(file) ==> |Title(file, modified)| == (if modified then 2 else 0) + |AppTitle|
    ensures StartsWith(Title(file, modified), "* ") <==>
      modified || (FileShown(file) && (StartsWith(Basename(file.value), "* ") || Basename(file.value) == "*"))
  {
    var t := Title(file, modified);
    var named := if FileShown(file) then Basename(file.value) + " - " + AppTitle else AppTitle;
    assert t[|t| - |named|..] == named;
    assert named[|named| - |AppTitle|..] == AppTitle;
    assert t[|t| - |AppTitle|..] == AppTitle;
    TitleStarred(file, modified);
  }

  /** The title starts with "* " when modified, and otherwise only when the file's own name does or is "*". */
  lemma TitleStarred(file: Option<string>, modified: bool)
    ensures StartsWith(Title(file, modified), "* ") <==>
      modified || (FileShown(file) && (StartsWith(Basename(file.value), "* ") || Basename(file.value) == "*"))
  {
    var t := Title(file, modified);
    if modified {
      assert t[..2] == "* ";
    } else if FileShown(file) {
      NameStarred(Basename(file.value));
    } else {
      assert t[0] == 'P';
    }
  }

  /** A title naming file `b` starts with "* " exactly when `b` does or is "*". */
  lemma NameStarred(b: string)
    ensures StartsWith(b + " - " + AppTitle, "* ") <==> StartsWith(b, "* ") || b == "*"
  {
    var t := b + " - " + AppTitle;
    if |b| == 0 {
      assert t[0] == ' ';
    } else if |b| == 1 {
      assert t[..2] == [b[0], ' '];
    } else {
      assert t[..2] == b[..2];
    }
  }

  /** A file whose own name starts with "* " shows a star in an unmodified window. */
  lemma StarredFileName()
    ensures StartsWith(Title(Some("/tmp/* notes"), false), "* ")
  {
    assert RFind("/tmp/* notes", '/') == 4;
    assert Basename("/tmp/* notes") == "* notes";
  }

  // ---------------------------------------------------------------- tabs

  /** A diagram tab: its scene's identity, its name, the positions of the scene's items and the scene's grid size. */
  datatype Tab = Tab(scene: nat, name: string, positions: seq<Point>, gridSize: int)

  /** The tab widget: its tabs in order and the index of the current one (-1 when there is none). */
  class TabWidget {
    var tabs: seq<Tab>
    var current: int

    constructor()
      ensures tabs == [] && current == -1
    {
      tabs, current := [], -1;
    }

    predicate HasCurrent()
      reads this
    {
      0 <= current < |tabs|
    }

    /** `setCurrentIndex`: an index outside the tabs is ignored. */
    method SetCurrentIndex(index: int)
      modifies this`current
      ensures current == if 0 <= index < |tabs| then index else old(current)
    {
      if 0 <= index < |tabs| {
        current := index;
      }
    }

    /** `addTab`: the new tab goes last and its index is returned. */
    method AddTab(tab: Tab) returns (index: int)
      modifies this`tabs, this`current
      ensures tabs == old(tabs) + [tab] && index == |old(tabs)|
      ensures current == if old(current) == -1 then 0 else old(current)
    {
      tabs := tabs + [tab];
      index := |tabs| - 1;
      if current == -1 {
        current := 0;
      }
    }

    /**
     * `removeTab`: the tab goes and the others keep their order; the current
     * tab stays current, and when it is the one removed the tab that takes
     * its place (or the new last one) becomes current.
     */
    method RemoveTab(index: int)
      requires 0 <= index < |tabs|
      modifies this`tabs, this`current
      ensures tabs == old(tabs[..index] + tabs[index + 1..])
      ensures current == if old(current) > index || old(current) == |tabs| then old(current) - 1 else old(current)
    {
      tabs := tabs[..index] + tabs[index + 1..];
      if current > index || current == |tabs| {
        current := current - 1;
      }
    }
  }

  // ---------------------------------------------------------------- the window

  class Window {
    const tabWidget: TabWidget
    var diagramCounter: nat
    var currentFile: Option<string>
    var isModified: bool
    var title: string
    var autoGridSpacing: bool
    var gridSpacing: int

    /**
     * `__init__` with the identity of the scene its first diagram gets: the
     * defaults, then `create_new_diagram`, so a new window shows one current
     * tab named after index 0 and the counter has moved on to 1.
     */
    constructor(scene: nat)
      ensures fresh(tabWidget)
      ensures tabWidget.tabs == [Tab(scene, DiagramName(0), [], 150)] && tabWidget.current == 0
      ensures tabWidget.HasCurrent()
      ensures diagramCounter == 1 && currentFile == None && !isModified
      ensures autoGridSpacing && gridSpacing == 150
      ensures title == AppTitle
    {
      tabWidget := new TabWidget();
      diagramCounter := 0;
      currentFile := None;
      isModified := false;
      title := AppTitle;
      autoGridSpacing := true;
      gridSpacing := 150;
      new;
      CreateNewDiagram(scene);
    }

    /**
     * `create_new_diagram` for a scene with the given identity: a new last
     * tab, named after the counter, with no items and the window's grid
     * spacing, becomes current; the counter moves on.
     */
    method CreateNewDiagram(scene: nat)
      modifies this`diagramCounter, tabWidget`tabs, tabWidget`current
      ensures tabWidget.tabs == old(tabWidget.tabs) + [Tab(scene, DiagramName(old(diagramCounter)), [], gridSpacing)]
      ensures tabWidget.current == |old(tabWidget.tabs)|
      ensures diagramCounter == old(diagramCounter) + 1
    {
      var name := DiagramName(diagramCounter);
      diagramCounter := diagramCounter + 1;
      var index := tabWidget.AddTab(Tab(scene, name, [], gridSpacing));
      tabWidget.SetCurrentIndex(index);
    }

    /** `_update_window_title`. */
    method UpdateWindowTitle()
      modifies this`title
      ensures title == Title(currentFile, isModified)
    {
      var t := AppTitle;
      if currentFile.Some? && currentFile.value != "" {
        t := Basename(currentFile.value) + " - " + t;
        if isModified {
          t := "* " + t;
        }
      } else if isModified {
        t := "* " + t;
      }
      title := t;
    }

    /** `mark_modified`: sets the flag, and rewrites the title only when the flag was clear. */
    method MarkModified()
      modifies this`isModified, this`title
      ensures isModified
      ensures old(isModified) ==> title == old(title)
      ensures !old(isModified) ==> title == Title(currentFile, true)
    {
      if !isModified {
        isModified := true;
        UpdateWindowTitle();
      }
    }

    /** A second `mark_modified` changes nothing. */
    method MarkModifiedTwice()
      modifies this`isModified, this`title
      ensures isModified
      ensures title == if old(isModified) then old(title) else Title(currentFile, true)
    {
      MarkModified();
      label once:
      MarkModified();
      assert title == old@once(title);
    }

    /**
     * `close_tab`: an index outside the tabs changes nothing; otherwise the
     * tab's scene is cleared and the tab removed, except the last tab, which
     * stays, cleared and renamed to the first diagram name; either way the
     * window is marked modified (without rewriting the title).
     */
    method CloseTab(index: int)
      modifies this`isModified, tabWidget`tabs, tabWidget`current
      ensures !(0 <= index < |old(tabWidget.tabs)|) ==>
        isModified == old(isModified) && tabWidget.tabs == old(tabWidget.tabs) && tabWidget.current == old(tabWidget.current)
      ensures 0 <= index < |old(tabWidget.tabs)| ==> isModified
      ensures 0 <= index < |old(tabWidget.tabs)| && |old(tabWidget.tabs)| > 1 ==>
        tabWidget.tabs == old(tabWidget.tabs[..index] + tabWidget.tabs[index + 1..])
      ensures 0 <= index < |old(tabWidget.tabs)| == 1 ==>
        tabWidget.tabs == [old(tabWidget.tabs[0]).(name := DiagramName(0), positions := [])]
        && tabWidget.current == old(tabWidget.current)
      ensures |old(tabWidget.tabs)| > 0 ==> |tabWidget.tabs| > 0
      ensures old(tabWidget.HasCurrent()) ==> tabWidget.HasCurrent()
    {
      if index < 0 || index >= |tabWidget.tabs| {
        return;
      }
      tabWidget.tabs := tabWidget.tabs[index := tabWidget.tabs[index].(positions := [])];
      if |tabWidget.tabs| > 1 {
        tabWidget.RemoveTab(index);
        isModified := true;
      } else {
        tabWidget.tabs := [tabWidget.tabs[0].(name := DiagramName(0))];
        isModified := true;
      }
    }

    /** Every item of the current scene moved by the factor (`_scale_scene_positions`). */
    method ScaleScenePositions(factor: real)
      requires tabWidget.HasCurrent()
      modifies tabWidget`tabs
      ensures tabWidget.tabs == old(tabWidget.tabs[tabWidget.current :=
        tabWidget.tabs[tabWidget.current].(positions := Scaled(tabWidget.tabs[tabWidget.current].positions, factor))])
    {
      var tab := tabWidget.tabs[tabWidget.current];
      var scaled: seq<Point> := [];
      for k := 0 to |tab.positions|
        invariant scaled == Scaled(tab.positions[..k], factor)
      {
        scaled := scaled + [Scale(factor, tab.positions[k])];
      }
      assert tab.positions[..|tab.positions|] == tab.positions;
      tabWidget.tabs := tabWidget.tabs[tabWidget.current := tab.(positions := scaled)];
    }

    /** `_update_grid_spacing`: the setting and the current scene's grid take the new spacing, and its items are rescaled. */
    method UpdateGridSpacing(newSpacing: int)
      modifies this`gridSpacing, tabWidget`tabs
      ensures !old(tabWidget.HasCurrent()) ==> gridSpacing == old(gridSpacing) && tabWidget.tabs == old(tabWidget.tabs)
      ensures old(tabWidget.HasCurrent()) ==> gridSpacing == newSpacing
      ensures old(tabWidget.HasCurrent()) ==> tabWidget.tabs == old(tabWidget.tabs[tabWidget.current :=
        Regridded(tabWidget.tabs[tabWidget.current], gridSpacing, newSpacing)])
    {
      if !tabWidget.HasCurrent() {
        return;
      }
      var oldSpacing := gridSpacing;
      var factor := if oldSpacing > 0 then newSpacing as real / oldSpacing as real else 1.0;
      gridSpacing := newSpacing;
      if Abs(factor - 1.0) > 0.01 {
        ScaleScenePositions(factor);
      }
      var tab := tabWidget.tabs[tabWidget.current];
      tabWidget.tabs := tabWidget.tabs[tabWidget.current := tab.(gridSize := newSpacing)];
    }

    /**
     * `check_and_adjust_grid_spacing` as written, collecting the lengths from
     * the scene's items: for the item classes of this code base the spacing
     * and the tabs never change.
     */
    method CheckAndAdjustGridSpacingAsWritten(items: seq<SceneItem>)
      modifies this`gridSpacing, tabWidget`tabs
      ensures gridSpacing ==
        if autoGridSpacing && old(tabWidget.HasCurrent()) then NextSpacing(old(gridSpacing), MeasuredLengths(items))
        else old(gridSpacing)
      ensures (forall k :: 0 <= k < |items| ==> OfCodeBase(items[k])) ==>
        gridSpacing == old(gridSpacing) && tabWidget.tabs == old(tabWidget.tabs)
    {
      var lengths := MeasuredLengths(items);
      if forall k :: 0 <= k < |items| ==> OfCodeBase(items[k]) {
        NothingMeasured(items);
      }
      CheckAndAdjustGridSpacing(lengths);
    }

    /**
     * `check_and_adjust_grid_spacing`, given the lengths of the arrows of the
     * current scene: nothing changes when the rule is off, there is no
     * current scene or there are no arrows; otherwise the spacing becomes
     * `NextSpacing`, and the scene is regridded when it changed.
     */
    method CheckAndAdjustGridSpacing(lengths: seq<real>)
      modifies this`gridSpacing, tabWidget`tabs
      ensures gridSpacing ==
        if autoGridSpacing && old(tabWidget.HasCurrent()) then NextSpacing(old(gridSpacing), lengths) else old(gridSpacing)
      ensures gridSpacing == old(gridSpacing) ==> tabWidget.tabs == old(tabWidget.tabs)
      ensures gridSpacing != old(gridSpacing) ==> tabWidget.tabs == old(tabWidget.tabs[tabWidget.current :=
        Regridded(tabWidget.tabs[tabWidget.current], gridSpacing, NextSpacing(gridSpacing, lengths))])
    {
      if !autoGridSpacing || !tabWidget.HasCurrent() || |lengths| == 0 {
        return;
      }
      var spacing := gridSpacing;
      var shortest := Shortest(lengths);
      if shortest <= ShortArrow {
        var doubled := MinInt(spacing * 2, MaxSpacing);
        if doubled != spacing {
          UpdateGridSpacing(doubled);
          return;
        }
      }
      var threshold := spacing as real * 0.8;
      if forall k :: 0 <= k < |lengths| ==> lengths[k] >= threshold {
        var halved := MaxInt(spacing / 2, MinSpacing);
        if halved != spacing {
          UpdateGridSpacing(halved);
        }
      }
    }
  }
}
