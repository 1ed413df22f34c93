/**
 * The proof steps of the diagram editor: which selections each step applies
 * to, and what `apply` and `unapply` do to the labels of Objects and arrows
 * and to the scene. A dialog a step opens is a parameter (the name it
 * returns, `None` when it is cancelled), and an exception a step raises is a
 * returned flag.
 */
module ProofSteps {
  import opened Wrappers
  import opened Geometry
  import opened Grid
  import opened Text
  import opened Composite
  import opened ElementSelect
  import opened ProofLabels
  import opened Nodes
  import opened Routing
  import opened Arrows
  import opened Deletion
  import opened UndoCommands

  // ---------------------------------------------------------------- applicability

  /** `IdentityProofStep.is_applicable` and `TakeElementProofStep.is_applicable`: one Object and no arrow. */
  predicate OneObjectSelected(objects: seq<ObjectNode>, arrows: seq<ArrowItem>)
  {
    |objects| == 1 && |arrows| == 0
  }

  /** `TakeKernelProofStep.is_applicable`: one arrow and no Object. */
  predicate OneArrowSelected(objects: seq<ObjectNode>, arrows: seq<ArrowItem>)
  {
    |objects| == 0 && |arrows| == 1
  }

  /** `CompositionProofStep.is_applicable`: two arrows, one ending where the other starts. */
  predicate CompositionApplicable(arrows: seq<ArrowItem>)
    reads arrows
  {
    |arrows| == 2 && (arrows[0].end == arrows[1].start || arrows[1].end == arrows[0].start)
  }

  /** `CancelIdentityProofStep.is_applicable`, on the label the arrow displays. */
  predicate CancelIdentityApplicable(arrows: seq<ArrowItem>)
    reads arrows
  {
    |arrows| == 1 && CancelApplicable(|arrows|, DisplayedText(arrows[0].text, arrows[0].isIsomorphism))
  }

  /** `MapElementProofStep.is_applicable`: one arrow, no Object, and the arrow's domain displays a ':'. */
  predicate MapElementApplicable(objects: seq<ObjectNode>, arrows: seq<ArrowItem>)
    reads arrows, set a | a in arrows :: a.start
  {
    |arrows| == 1 && |objects| == 0 && arrows[0].start != null && ':' in arrows[0].start.text
  }

  /** `KernelAtElementIsZeroProofStep.is_applicable`: one Object, no arrow, and a kernel element in its label. */
  predicate KernelZeroApplicable(objects: seq<ObjectNode>, arrows: seq<ArrowItem>)
    reads objects
  {
    |objects| == 1 && |arrows| == 0 && ':' in objects[0].text && HasKernelElement(objects[0].text)
  }

  // ---------------------------------------------------------------- element labels

  /** The label Take Element gives an Object: the element, ':' and the Object's base name. */
  function ElementDisplay(element: string, baseName: string): string
  {
    element + ":" + baseName
  }

  /** An element label lists exactly its element, and keeps the base name after the ':'. */
  lemma ElementDisplayParsed(element: string, baseName: string)
    requires IsElement(element)
    ensures ParseElements(ElementDisplay(element, baseName)) == [element]
    ensures ':' in ElementDisplay(element, baseName)
    ensures After(ElementDisplay(element, baseName), ':') == baseName
  {
    assert Join([element], ", ") == element;
    ParseJoined([element], baseName);
    var text := ElementDisplay(element, baseName);
    assert text[|element|] == ':';
    BeforeJoined(element, baseName);
  }

  /**
   * After Take Element of `x` on the domain of an arrow labelled `f`, Map
   * Element along it writes `f(x)`-style notation on the codomain, and the
   * codomain's label again lists that one element.
   */
  lemma TakeThenMap(x: string, domainBase: string, f: string, codomainBase: string)
    requires IsElement(x) && IsElement(f)
    ensures ParseElements(ElementDisplay(x, domainBase)) == [x]
    ensures ParseElements(ElementDisplay(MappedElement(x, f), codomainBase)) == [MappedElement(x, f)]
    ensures After(ElementDisplay(MappedElement(x, f), codomainBase), ':') == codomainBase
  {
    ElementDisplayParsed(x, domainBase);
    MappedIsElement(x, f);
    ElementDisplayParsed(MappedElement(x, f), codomainBase);
  }

  /** The element Map Element works on: the only one, or the dialog's choice among several. */
  function ChosenElement(elements: seq<string>, choice: Option<string>): (r: Option<string>)
    ensures r.None? <==> |elements| == 0 || (|elements| > 1 && choice.None?)
    ensures |elements| == 1 ==> r == Some(elements[0])
  {
    if |elements| == 1 then Some(elements[0])
    else if |elements| > 1 then choice
    else None
  }

  // ---------------------------------------------------------------- Identity

  /** The offset of the duplicate Object from the original. */
  const IdentityOffset: Point := Point(150.0, 0.0)

  /** `IdentityProofStep`: a copy of the Object to its right and the identity arrow to it. */
  class IdentityStep {
    const scene: ItemScene
    const original: ObjectNode
    var createdObject: ObjectNode?
    var createdArrow: ArrowItem?

    constructor(scene: ItemScene, original: ObjectNode)
      ensures this.scene == scene && this.original == original
      ensures createdObject == null && createdArrow == null
    {
      this.scene, this.original := scene, original;
      createdObject, createdArrow := null, null;
    }

    /**
     * `apply`: the copy has the original's name and stands on the grid
     * point nearest to 150 to the right; the arrow from the original to the
     * copy is labelled with the identity label of the name.
     */
    method Apply(key: int, env: Surroundings, sqrt: real -> real)
      requires IsSqrt(sqrt)
      modifies this`createdObject, this`createdArrow, scene`objects, scene`arrows
      ensures createdObject != null && fresh(createdObject)
      ensures createdArrow != null && fresh(createdArrow)
      ensures createdObject.baseName == original.baseName && createdObject.text == original.baseName
      ensures createdObject.pos == SnapToGrid(Add(original.pos, IdentityOffset), NodeGrid)
      ensures createdArrow.start == original && createdArrow.end == createdObject
      ensures createdArrow.text == IdentityLabel(original.baseName)
      ensures scene.objects == old(scene.objects) + [createdObject]
      ensures scene.arrows == old(scene.arrows) + [createdArrow]
    {
      var name := original.GetText();
      var copy := new ObjectNode(name);
      PositionNode(copy, Add(original.pos, IdentityOffset), None);
      scene.AddObject(copy);
      var arrow := new ArrowItem(original, copy, "a", key, env, sqrt);
      var identityLabel := CreateUnicodeSubscript(name);
      arrow.SetText(identityLabel);
      scene.AddArrow(arrow);
      createdObject, createdArrow := copy, arrow;
    }

    /** `unapply`: removes the arrow and the copy from the scene and forgets them. */
    method Unapply()
      modifies this`createdObject, this`createdArrow, scene`objects, scene`arrows
      ensures old(createdArrow) != null ==> scene.arrows == Without<ArrowItem>(old(scene.arrows), {old(createdArrow)})
      ensures old(createdArrow) == null ==> scene.arrows == old(scene.arrows)
      ensures old(createdObject) != null ==> scene.objects == Without<ObjectNode>(old(scene.objects), {old(createdObject)})
      ensures old(createdObject) == null ==> scene.objects == old(scene.objects)
      ensures createdObject == null && createdArrow == null
    {
      if createdArrow != null {
        scene.RemoveArrow(createdArrow);
      }
      if createdObject != null {
        scene.RemoveObject(createdObject);
      }
      createdArrow, createdObject := null, null;
    }
  }

  /** Identity followed by its undo leaves the scene's Objects and arrows as they were. */
  method IdentityAndUndo(step: IdentityStep, key: int, env: Surroundings, sqrt: real -> real)
    requires IsSqrt(sqrt)
    modifies step, step.scene`objects, step.scene`arrows
    ensures step.scene.objects == old(step.scene.objects) && step.scene.arrows == old(step.scene.arrows)
  {
    ghost var objects, arrows := step.scene.objects, step.scene.arrows;
    step.Apply(key, env, sqrt);
    ghost var o, a := step.createdObject, step.createdArrow;
    step.Unapply();
    WithoutAppended<ObjectNode>(objects, o);
    WithoutAppended<ArrowItem>(arrows, a);
  }

  // ---------------------------------------------------------------- Compose Arrows

  /** Where a new arrow runs and the label it gets. */
  datatype Span = Span(start: ObjectNode?, end: ObjectNode?, name: string)

  /**
   * The composite `CompositionProofStep.apply` adds: when the first arrow
   * ends where the second starts, from the first's source to the second's
   * target labelled second∘first, otherwise the other way round.
   */
  function CompositionSpan(first: ArrowItem, second: ArrowItem): Span
    reads first, second
  {
    var f, g := DisplayedText(first.text, first.isIsomorphism), DisplayedText(second.text, second.isIsomorphism);
    if first.end == second.start then Span(first.start, second.end, Composed(g, f))
    else Span(second.start, first.end, Composed(f, g))
  }

  /**
   * Of two composable arrows, the composite runs from the source of the one
   * taken first to the target of the one taken second, through their shared
   * Object, and its label splits back into the two labels.
   */
  lemma CompositionChains(first: ArrowItem, second: ArrowItem)
    requires CompositionApplicable([first, second])
    ensures var l := CompositionSpan(first, second);
      var f, g := DisplayedText(first.text, first.isIsomorphism), DisplayedText(second.text, second.isIsomorphism);
      (first.end == second.start && l.start == first.start && l.end == second.end
        && l.name[..|g|] == g && l.name[|g| + 3..] == f && SepAt(l.name, |g|))
      || (second.end == first.start && l.start == second.start && l.end == first.end
        && l.name[..|f|] == f && l.name[|f| + 3..] == g && SepAt(l.name, |f|))
  {
    var f, g := DisplayedText(first.text, first.isIsomorphism), DisplayedText(second.text, second.isIsomorphism);
    ComposedSep(g, f);
    ComposedSep(f, g);
  }

  /** `CompositionProofStep`: adds the composite of two arrows and keeps both. */
  class CompositionStep {
    const scene: ItemScene
    const arrows: seq<ArrowItem>
    var composedArrow: ArrowItem?
    var originalArrows: seq<ArrowItem>

    constructor(scene: ItemScene, arrows: seq<ArrowItem>)
      ensures this.scene == scene && this.arrows == arrows
      ensures composedArrow == null && originalArrows == []
    {
      this.scene, this.arrows := scene, arrows;
      composedArrow, originalArrows := null, [];
    }

    /** `apply`: with two arrows, a new arrow along their composite; otherwise nothing. */
    method Apply(key: int, env: Surroundings, sqrt: real -> real)
      requires IsSqrt(sqrt)
      modifies this`composedArrow, this`originalArrows, scene`arrows
      ensures |arrows| != 2 ==> composedArrow == old(composedArrow) && scene.arrows == old(scene.arrows)
      ensures |arrows| == 2 ==>
        composedArrow != null && fresh(composedArrow) && originalArrows == arrows
        && Span(composedArrow.start, composedArrow.end, composedArrow.text) == CompositionSpan(arrows[0], arrows[1])
        && scene.arrows == old(scene.arrows) + [composedArrow]
    {
      if |arrows| == 2 {
        var first, second := arrows[0], arrows[1];
        var s1 := first.GetSource();
        var t1 := first.GetTarget();
        var s2 := second.GetSource();
        var t2 := second.GetTarget();
        var f := first.GetText();
        var g := second.GetText();
        var link := if t1 == s2 then Span(s1, t2, Composed(g, f)) else Span(s2, t1, Composed(f, g));
        originalArrows := [first, second];
        var arrow := new ArrowItem(link.start, link.end, link.name, key, env, sqrt);
        scene.AddArrow(arrow);
        composedArrow := arrow;
      }
    }

    /** `unapply`: removes the composite, if there is one; the two arrows stay. */
    method Unapply()
      modifies this`composedArrow, scene`arrows
      ensures old(composedArrow) != null ==> scene.arrows == Without<ArrowItem>(old(scene.arrows), {old(composedArrow)})
      ensures old(composedArrow) == null ==> scene.arrows == old(scene.arrows)
      ensures composedArrow == null
    {
      if composedArrow != null {
        scene.RemoveArrow(composedArrow);
        composedArrow := null;
      }
    }
  }

  /** Compose Arrows followed by its undo leaves the scene's arrows as they were. */
  method CompositionAndUndo(step: CompositionStep, key: int, env: Surroundings, sqrt: real -> real)
    requires IsSqrt(sqrt)
    modifies step, step.scene`arrows
    ensures |step.arrows| == 2 || old(step.composedArrow) == null ==> step.scene.arrows == old(step.scene.arrows)
  {
    ghost var arrows := step.scene.arrows;
    step.Apply(key, env, sqrt);
    ghost var a := step.composedArrow;
    step.Unapply();
    if |step.arrows| == 2 {
      WithoutAppended<ArrowItem>(arrows, a);
    }
  }

  // ---------------------------------------------------------------- Cancel Identities

  /**
   * `CancelIdentityProofStep`, keeping the arrow's own label to restore
   * (the source keeps the displayed label; see `SourceCancelRoundTrip`).
   */
  class CancelIdentityStep {
    const arrow: ArrowItem
    const originalText: string
    var newText: Option<string>

    constructor(arrow: ArrowItem)
      ensures this.arrow == arrow && originalText == arrow.text && newText == None
    {
      this.arrow := arrow;
      originalText := arrow.text;
      newText := None;
    }

    /**
     * `apply`: a label that is one identity stays; otherwise every identity
     * factor is dropped, and the other factors stay in order.
     */
    method Apply()
      modifies this`newText, arrow`text
      ensures newText == Some(arrow.text) && arrow.text == Cancelled(originalText)
      ensures Pure(Strip(originalText)) ==> arrow.text == originalText
      ensures !Pure(Strip(originalText)) ==> arrow.text == WithoutIdentities(originalText) && IdentityFree(arrow.text)
    {
      var t := CancelIdentities(originalText);
      newText := Some(t);
      arrow.SetText(t);
    }

    /** `unapply`: the kept label is back. */
    method Unapply()
      modifies arrow`text
      ensures arrow.text == originalText
    {
      arrow.SetText(originalText);
    }
  }

  /** Cancel Identities followed by its undo gives the arrow its label back, isomorphism or not. */
  method CancelRoundTrip(arrow: ArrowItem)
    modifies arrow`text
    ensures arrow.text == old(arrow.text)
  {
    var step := new CancelIdentityStep(arrow);
    step.Apply();
    step.Unapply();
  }

  /**
   * Cancel Identities and its undo as the source writes them: the step keeps
   * the displayed label, and on an isomorphism that is "~ " and the label.
   * `apply` cancels identities on that displayed label, so `applied`, the
   * label it leaves, carries the "~ " too, and `unapply` writes the displayed
   * label back as the arrow's label.
   */
  method SourceCancelRoundTrip(arrow: ArrowItem) returns (applied: string)
    modifies arrow`text
    ensures applied == Cancelled(DisplayedText(old(arrow.text), arrow.isIsomorphism))
    ensures arrow.text == DisplayedText(old(arrow.text), arrow.isIsomorphism)
    ensures arrow.isIsomorphism ==> arrow.text != old(arrow.text)
  {
    var originalText := arrow.GetText();
    applied := CancelIdentities(originalText);
    arrow.SetText(applied);
    arrow.SetText(originalText);
    assert arrow.isIsomorphism ==> |arrow.text| == |old(arrow.text)| + 2;
  }

  /**
   * Cancel Identities as written on an isomorphism labelled `f∘1_A`: the
   * step applies to the displayed label `~ f∘1_A`, and cancelling on it
   * leaves `~ f` as the label, where cancelling on the label itself gives `f`.
   */
  lemma SourceCancelTrailingOnIsomorphism()
    ensures CancelApplicable(1, DisplayedText(Join(["f", "1_A"], Sep), true))
    ensures Cancelled(DisplayedText(Join(["f", "1_A"], Sep), true)) == DisplayedText("f", true)
    ensures Cancelled(Join(["f", "1_A"], Sep)) == "f"
  {
    var shown := ["~ f", "1_A"];
    assert DisplayedText(Join(["f", "1_A"], Sep), true) == Join(shown, Sep);
    var text := Join(shown, Sep);
    assert Join(shown[1..], Sep) == "1_A";
    assert text == "~ f" + Sep + "1_A";
    assert OccursAt(text, "1_", 6);
    ContainsAt(text, "1_");
    assert text[0] == '~' && text[|text| - 1] == 'A';
    StripTrimmed(text);
    assert forall k :: 0 <= k < |shown| ==> NoSep(shown[k]);
    assert Kept(shown) == ["~ f"] by {
      assert IsIdentity(shown[1]);
    }
    CancelFactors(shown);
    var plain := ["f", "1_A"];
    var joined := Join(plain, Sep);
    assert Join(plain[1..], Sep) == "1_A";
    assert joined == "f" + Sep + "1_A";
    assert joined[0] == 'f' && joined[|joined| - 1] == 'A';
    StripTrimmed(joined);
    assert forall k :: 0 <= k < |plain| ==> NoSep(plain[k]);
    assert Kept(plain) == ["f"] by {
      assert IsIdentity(plain[1]);
    }
    CancelFactors(plain);
  }

  /**
   * Cancel Identities as written on an isomorphism labelled `1_A∘f`: the
   * displayed label's first factor is `~ 1_A`, which is no identity, so the
   * step applies and changes nothing, where cancelling on the label itself
   * gives `f`.
   */
  lemma SourceCancelLeadingOnIsomorphism()
    ensures CancelApplicable(1, DisplayedText(Join(["1_A", "f"], Sep), true))
    ensures Cancelled(DisplayedText(Join(["1_A", "f"], Sep), true)) == DisplayedText(Join(["1_A", "f"], Sep), true)
    ensures Cancelled(Join(["1_A", "f"], Sep)) == "f"
  {
    var shown := ["~ 1_A", "f"];
    assert DisplayedText(Join(["1_A", "f"], Sep), true) == Join(shown, Sep);
    var text := Join(shown, Sep);
    assert Join(shown[1..], Sep) == "f";
    assert text == "~ 1_A" + Sep + "f";
    assert OccursAt(text, "1_", 2);
    ContainsAt(text, "1_");
    assert text[0] == '~' && text[|text| - 1] == 'f';
    StripTrimmed(text);
    assert forall k :: 0 <= k < |shown| ==> NoSep(shown[k]);
    assert Kept(shown) == shown by {
      assert !IsIdentity(shown[0]) && !IsIdentity(shown[1]);
    }
    CancelFactors(shown);
    var plain := ["1_A", "f"];
    var joined := Join(plain, Sep);
    assert Join(plain[1..], Sep) == "f";
    assert joined == "1_A" + Sep + "f";
    assert joined[0] == '1' && joined[|joined| - 1] == 'f';
    assert InSep(joined[3]);
    StripTrimmed(joined);
    assert forall k :: 0 <= k < |plain| ==> NoSep(plain[k]);
    assert Kept(plain) == ["f"] by {
      assert IsIdentity(plain[0]);
    }
    CancelFactors(plain);
  }

  // ---------------------------------------------------------------- Take Element

  /** `TakeElementProofStep`: names an element of an Object in its label. */
  class TakeElementStep {
    const obj: ObjectNode
    var elementSymbol: Option<string>
    var originalText: Option<string>

    constructor(obj: ObjectNode)
      ensures this.obj == obj && elementSymbol == None && originalText == None
    {
      this.obj := obj;
      elementSymbol, originalText := None, None;
    }

    /**
     * `apply` with the element dialog's answer: an accepted name `x` makes
     * the label `x:` and the base name, which itself stays; a cancelled
     * dialog raises and changes nothing.
     */
    method Apply(dialogName: Option<string>) returns (raised: bool)
      modifies this`elementSymbol, this`originalText, obj`text
      ensures raised <==> dialogName.None?
      ensures raised ==> obj.text == old(obj.text) && elementSymbol == old(elementSymbol) && originalText == old(originalText)
      ensures !raised ==>
        elementSymbol == dialogName && originalText == Some(old(obj.text))
        && obj.text == ElementDisplay(dialogName.value, obj.baseName)
    {
      if dialogName.None? {
        return true;
      }
      elementSymbol := dialogName;
      var display := obj.GetDisplayText();
      originalText := Some(display);
      var baseName := obj.GetText();
      obj.SetText(ElementDisplay(dialogName.value, baseName));
      return false;
    }

    /** `unapply` as intended: the label from before `apply` is back. */
    method Unapply()
      modifies obj`text
      ensures originalText.Some? ==> obj.text == originalText.value
      ensures originalText.None? ==> obj.text == old(obj.text)
    {
      if originalText.Some? {
        obj.SetText(originalText.value);
      }
    }

    /** `unapply` as written: it returns before its restoring line, so it changes nothing. */
    method SourceUnapply()
      ensures obj.text == old(obj.text)
    {
    }
  }

  /** Take Element followed by the intended undo gives the Object its label back. */
  method TakeElementRoundTrip(obj: ObjectNode, dialogName: Option<string>)
    modifies obj`text
    ensures obj.text == old(obj.text)
  {
    var step := new TakeElementStep(obj);
    var raised := step.Apply(dialogName);
    step.Unapply();
  }

  /**
   * Take Element followed by the undo as written: the element stays in the
   * label, which differs from the old one whenever that had no ':'.
   */
  method SourceTakeElementRoundTrip(obj: ObjectNode, name: string)
    modifies obj`text
    ensures obj.text == ElementDisplay(name, obj.baseName)
    ensures ':' !in old(obj.text) ==> obj.text != old(obj.text)
  {
    var step := new TakeElementStep(obj);
    var raised := step.Apply(Some(name));
    step.SourceUnapply();
    assert obj.text[|name|] == ':';
  }

  // ---------------------------------------------------------------- Map Element

  /** `MapElementProofStep`: writes the image of an element of the domain on the codomain. */
  class MapElementStep {
    const arrow: ArrowItem
    var elementName: Option<string>
    var functionName: Option<string>
    var originalCodomainText: Option<string>
    var originalCodomainBaseName: Option<string>

    constructor(arrow: ArrowItem)
      ensures this.arrow == arrow && elementName == None && functionName == None
      ensures originalCodomainText == None && originalCodomainBaseName == None
    {
      this.arrow := arrow;
      elementName, functionName := None, None;
      originalCodomainText, originalCodomainBaseName := None, None;
    }

    /**
     * `apply` with the selection dialog's answer (used only when the domain
     * lists several elements): without both ends nothing happens; no
     * element, or a cancelled dialog, raises after the codomain's label is
     * kept; otherwise the codomain shows the image of the element under the
     * arrow's displayed label, then ':' and its base name, which stays.
     */
    method Apply(choice: Option<string>) returns (raised: bool)
      modifies this, if arrow.end != null then {arrow.end} else {}
      ensures arrow.start == null || arrow.end == null ==>
        !raised && elementName == old(elementName)
        && originalCodomainText == old(originalCodomainText) && originalCodomainBaseName == old(originalCodomainBaseName)
        && (arrow.end != null ==> arrow.end.text == old(arrow.end.text) && arrow.end.baseName == old(arrow.end.baseName))
      ensures arrow.start != null && arrow.end != null ==>
        var chosen := ChosenElement(ParseElements(old(arrow.start.text)), choice);
        (raised <==> chosen.None?)
        && functionName == Some(DisplayedText(arrow.text, arrow.isIsomorphism))
        && originalCodomainText == Some(old(arrow.end.text))
        && originalCodomainBaseName == Some(old(arrow.end.baseName))
        && arrow.end.baseName == old(arrow.end.baseName)
        && (raised ==> arrow.end.text == old(arrow.end.text) && elementName == old(elementName))
        && (!raised ==> elementName == chosen)
        && (!raised && chosen.value != "" ==>
              arrow.end.text == ElementDisplay(MappedElement(chosen.value, functionName.value), old(arrow.end.baseName)))
        && (!raised && chosen.value == "" ==> arrow.end.text == old(arrow.end.text))
    {
      var domain := arrow.GetSource();
      var codomain := arrow.GetTarget();
      if domain == null || codomain == null {
        return false;
      }
      var domainText := domain.GetDisplayText();
      var arrowLabel := arrow.GetText();
      functionName := Some(arrowLabel);
      var codomainText := codomain.GetDisplayText();
      var codomainBase := codomain.GetText();
      originalCodomainText, originalCodomainBaseName := Some(codomainText), Some(codomainBase);
      var elements := ParseElements(domainText);
      var chosen := ChosenElement(elements, choice);
      if chosen.None? {
        return true;
      }
      elementName := chosen;
      if chosen.value != "" {
        codomain.SetText(ElementDisplay(MappedElement(chosen.value, arrowLabel), codomainBase));
        codomain.baseName := codomainBase;
      }
      return false;
    }

    /** `unapply`: the codomain's kept label and base name are back. */
    method Unapply()
      modifies if arrow.end != null then {arrow.end} else {}
      ensures arrow.end != null && originalCodomainText.Some? ==> arrow.end.text == originalCodomainText.value
      ensures arrow.end != null && originalCodomainText.None? ==> arrow.end.text == old(arrow.end.text)
      ensures arrow.end != null && originalCodomainBaseName.Some? ==> arrow.end.baseName == originalCodomainBaseName.value
      ensures arrow.end != null && originalCodomainBaseName.None? ==> arrow.end.baseName == old(arrow.end.baseName)
    {
      var codomain := arrow.GetTarget();
      if codomain == null {
        return;
      }
      if originalCodomainText.Some? {
        codomain.SetText(originalCodomainText.value);
      }
      if originalCodomainBaseName.Some? {
        codomain.baseName := originalCodomainBaseName.value;
      }
    }
  }

  /** Map Element followed by its undo gives the codomain its label and base name back. */
  method MapElementRoundTrip(arrow: ArrowItem, choice: Option<string>)
    modifies if arrow.end != null then {arrow.end} else {}
    ensures arrow.end != null ==> arrow.end.text == old(arrow.end.text) && arrow.end.baseName == old(arrow.end.baseName)
  {
    var step := new MapElementStep(arrow);
    var raised := step.Apply(choice);
    step.Unapply();
  }

  // ---------------------------------------------------------------- Kernel at Element is 0

  /** The loop of `apply` that marks each kernel element with "=0". */
  method MarkElements(elements: seq<string>) returns (marked: seq<string>)
    ensures marked == ZeroMarkedAll(elements)
  {
    marked := [];
    for i := 0 to |elements|
      invariant |marked| == i
      invariant forall k :: 0 <= k < i ==> marked[k] == ZeroMarked(elements[k])
    {
      if KernelPattern(elements[i]) {
        marked := marked + [elements[i] + "=0"];
      } else {
        marked := marked + [elements[i]];
      }
    }
  }

  /** `KernelAtElementIsZeroProofStep`: marks the kernel elements of an Object as zero. */
  class KernelZeroStep {
    const node: ObjectNode
    var originalText: Option<string>
    var originalBaseName: Option<string>

    constructor(node: ObjectNode)
      ensures this.node == node && originalText == None && originalBaseName == None
    {
      this.node := node;
      originalText, originalBaseName := None, None;
    }

    /**
     * `apply`: keeps the label and base name, then rewrites the element list
     * with "=0" after each kernel element; the base name stays.
     */
    method Apply()
      modifies this`originalText, this`originalBaseName, node`text, node`baseName
      ensures originalText == Some(old(node.text)) && originalBaseName == Some(old(node.baseName))
      ensures node.text == KernelZeroText(old(node.text)) && node.baseName == old(node.baseName)
    {
      var display := node.GetDisplayText();
      var baseName := node.GetText();
      originalText, originalBaseName := Some(display), Some(baseName);
      if ':' in display {
        var marked := MarkElements(ParseElements(display));
        node.SetText(Join(marked, ", ") + ":" + After(display, ':'));
        node.baseName := baseName;
      }
    }

    /** `unapply`: the kept label and base name are back. */
    method Unapply()
      modifies node`text, node`baseName
      ensures originalText.Some? ==> node.text == originalText.value
      ensures originalText.None? ==> node.text == old(node.text)
      ensures originalBaseName.Some? ==> node.baseName == originalBaseName.value
      ensures originalBaseName.None? ==> node.baseName == old(node.baseName)
    {
      if originalText.Some? {
        node.SetText(originalText.value);
      }
      if originalBaseName.Some? {
        node.baseName := originalBaseName.value;
      }
    }
  }

  /** Kernel at Element is 0 followed by its undo gives the Object its label back. */
  method KernelZeroRoundTrip(node: ObjectNode)
    modifies node`text, node`baseName
    ensures node.text == old(node.text) && node.baseName == old(node.baseName)
  {
    var step := new KernelZeroStep(node);
    step.Apply();
    step.Unapply();
  }

  // ---------------------------------------------------------------- Take Kernel

  /**
   * The prefix of a kernel Object's name as the source writes it: the UTF-8
   * bytes of the script letters K, e, r read one by one as Windows-1252
   * characters (the byte 0x9D, undefined there, lost), then a space.
   */
  const KernelObjectPrefix: string := "\U{F0}\U{2019}\U{A6}\U{E2}\U{201E}\U{AF}\U{F0}\U{201C}\U{2021} "

  /** `TakeKernelProofStep`: a kernel Object and the kernel arrow from it into the arrow's domain. */
  class TakeKernelStep {
    const scene: ItemScene
    const arrow: ArrowItem
    var kernelObject: ObjectNode?
    var kernelArrow: ArrowItem?

    constructor(scene: ItemScene, arrow: ArrowItem)
      ensures this.scene == scene && this.arrow == arrow
      ensures kernelObject == null && kernelArrow == null
    {
      this.scene, this.arrow := scene, arrow;
      kernelObject, kernelArrow := null, null;
    }

    /**
     * `apply`, given the grid position the scene offers for the point 150 to
     * the left of the domain: the kernel Object is named after the arrow's
     * displayed label, and the kernel arrow `k_` and that label runs from it
     * to the domain as a kernel arrow. An arrow without a source raises
     * (`None.pos()`) before anything is created.
     */
    method Apply(placed: Point, key: int, env: Surroundings, sqrt: real -> real) returns (raised: bool)
      requires IsSqrt(sqrt)
      modifies this`kernelObject, this`kernelArrow, scene`objects, scene`arrows
      ensures raised <==> arrow.start == null
      ensures raised ==> unchanged(this) && scene.objects == old(scene.objects) && scene.arrows == old(scene.arrows)
      ensures !raised ==> kernelObject != null && fresh(kernelObject) && kernelArrow != null && fresh(kernelArrow)
      ensures !raised ==> kernelObject.baseName == KernelObjectPrefix + DisplayedText(arrow.text, arrow.isIsomorphism)
      ensures !raised ==> kernelObject.pos == SnapToGrid(placed, NodeGrid)
      ensures !raised ==> kernelArrow.start == kernelObject && kernelArrow.end == arrow.start
      ensures !raised ==> kernelArrow.text == KernelArrowName(DisplayedText(arrow.text, arrow.isIsomorphism))
      ensures !raised ==> kernelArrow.isKernel && kernelArrow.IsKernelArrow() && kernelArrow.StyleFlags() == KernelStyles
      ensures !raised ==> scene.objects == old(scene.objects) + [kernelObject]
      ensures !raised ==> scene.arrows == old(scene.arrows) + [kernelArrow]
    {
      if arrow.start == null {
        return true;
      }
      raised := false;
      var source := arrow.start;
      var arrowLabel := arrow.GetText();
      var k := new ObjectNode(KernelObjectPrefix + arrowLabel);
      PositionNode(k, placed, None);
      scene.AddObject(k);
      var a := new ArrowItem(k, source, KernelArrowName(arrowLabel), key, env, sqrt);
      a.SetAsKernelArrow();
      scene.AddArrow(a);
      kernelObject, kernelArrow := k, a;
    }

    /** `unapply`: removes the kernel arrow and the kernel Object and forgets them. */
    method Unapply()
      modifies this`kernelObject, this`kernelArrow, scene`objects, scene`arrows
      ensures old(kernelArrow) != null ==> scene.arrows == Without<ArrowItem>(old(scene.arrows), {old(kernelArrow)})
      ensures old(kernelArrow) == null ==> scene.arrows == old(scene.arrows)
      ensures old(kernelObject) != null ==> scene.objects == Without<ObjectNode>(old(scene.objects), {old(kernelObject)})
      ensures old(kernelObject) == null ==> scene.objects == old(scene.objects)
      ensures kernelObject == null && kernelArrow == null
    {
      if kernelArrow != null {
        scene.RemoveArrow(kernelArrow);
        kernelArrow := null;
      }
      if kernelObject != null {
        scene.RemoveObject(kernelObject);
        kernelObject := null;
      }
    }
  }

  /** Take Kernel followed by its undo leaves the scene's Objects and arrows as they were. */
  method TakeKernelAndUndo(step: TakeKernelStep, placed: Point, key: int, env: Surroundings, sqrt: real -> real)
    requires step.arrow.start != null && IsSqrt(sqrt)
    modifies step, step.scene`objects, step.scene`arrows
    ensures step.scene.objects == old(step.scene.objects) && step.scene.arrows == old(step.scene.arrows)
  {
    ghost var objects, arrows := step.scene.objects, step.scene.arrows;
    var raised := step.Apply(placed, key, env, sqrt);
    ghost var o, a := step.kernelObject, step.kernelArrow;
    step.Unapply();
    WithoutAppended<ObjectNode>(objects, o);
    WithoutAppended<ArrowItem>(arrows, a);
  }
}
