/**
 * The undo-stack command that runs a proof step: it finds the tab showing
 * the step's scene when it is made, and its redo and undo switch to that
 * tab (when there is one) before applying or unapplying the step. The
 * command is modelled for the steps that rewrite labels.
 */
module ProofCommand {
  import opened Wrappers
  import opened Text
  import opened Composite
  import opened ProofLabels
  import opened Nodes
  import opened Arrows
  import opened ProofSteps
  import opened MainWindow

  /** The step a command runs. */
  datatype LabelStep =
    | CancelIdentity(cancel: CancelIdentityStep)
    | TakeElement(take: TakeElementStep)
    | MapElement(mapping: MapElementStep)
    | KernelZero(kernel: KernelZeroStep)

  /** The Objects and arrows whose labels the step rewrites: what `unapply` may change. */
  function Labelled(step: LabelStep): set<object>
    reads if step.MapElement? then {step.mapping.arrow} else {}
  {
    match step
    case CancelIdentity(c) => {c.arrow}
    case TakeElement(t) => {t.obj}
    case MapElement(m) => if m.arrow.end != null then {m.arrow.end} else {}
    case KernelZero(k) => {k.node}
  }

  /** What `apply` may change: the labels and what the step keeps for `unapply`. */
  function Footprint(step: LabelStep): set<object>
    reads if step.MapElement? then {step.mapping.arrow} else {}
  {
    Labelled(step) + match step
      case CancelIdentity(c) => {c}
      case TakeElement(t) => {t}
      case MapElement(m) => {m}
      case KernelZero(k) => {k}
  }

  /** The step has not run yet: nothing kept, and a cancellation's label is the one it keeps. */
  predicate Ready(step: LabelStep)
    reads Footprint(step), if step.MapElement? then {step.mapping.arrow} else {}
  {
    match step
    case CancelIdentity(c) => c.arrow.text == c.originalText
    case TakeElement(t) => t.originalText.None?
    case MapElement(m) => m.originalCodomainText.None? && m.originalCodomainBaseName.None?
    case KernelZero(k) => k.originalText.None? && k.originalBaseName.None?
  }

  /**
   * `get_affected_tab_index`: the first tab of the scene's window that shows
   * the scene, or -1 when the scene has no window or no tab shows it.
   */
  method AffectedTabIndex(window: Option<TabWidget>, scene: nat) returns (index: int)
    ensures window.None? ==> index == -1
    ensures window.Some? ==> -1 <= index < |window.value.tabs|
    ensures window.Some? && index == -1 ==> forall k :: 0 <= k < |window.value.tabs| ==> window.value.tabs[k].scene != scene
    ensures 0 <= index ==>
      window.value.tabs[index].scene == scene && forall k :: 0 <= k < index ==> window.value.tabs[k].scene != scene
  {
    if window.None? {
      return -1;
    }
    var tabs := window.value.tabs;
    for i := 0 to |tabs|
      invariant forall k :: 0 <= k < i ==> tabs[k].scene != scene
    {
      if tabs[i].scene == scene {
        return i;
      }
    }
    return -1;
  }

  class ProofStepCommand {
    const step: LabelStep
    const window: Option<TabWidget>
    const tabIndex: int

    /** Remembers the index of the tab showing the step's scene. */
    constructor(step: LabelStep, window: Option<TabWidget>, scene: nat)
      ensures this.step == step && this.window == window
      ensures window.None? ==> tabIndex == -1
      ensures 0 <= tabIndex ==> window.Some? && tabIndex < |window.value.tabs| && window.value.tabs[tabIndex].scene == scene
      ensures window.Some? && tabIndex < 0 ==> forall k :: 0 <= k < |window.value.tabs| ==> window.value.tabs[k].scene != scene
    {
      var index := AffectedTabIndex(window, scene);
      this.step, this.window, tabIndex := step, window, index;
    }

    /** The tab the command switches to, when its index is not negative. */
    method SwitchToTab()
      modifies if window.Some? then {window.value} else {}
      ensures window.Some? ==> window.value.tabs == old(window.value.tabs)
      ensures window.Some? ==>
        window.value.current == if 0 <= tabIndex < |window.value.tabs| then tabIndex else old(window.value.current)
    {
      if tabIndex >= 0 && window.Some? {
        window.value.SetCurrentIndex(tabIndex);
      }
    }

    /**
     * `redo`: switches tab, then applies the step with the answer of the
     * dialog it opens (if any); `raised` is the exception the step raises.
     */
    method Redo(answer: Option<string>) returns (raised: bool)
      modifies (if window.Some? then {window.value} else {}), Footprint(step)
      ensures window.Some? ==> window.value.tabs == old(window.value.tabs)
      ensures window.Some? ==>
        window.value.current == if 0 <= tabIndex < |window.value.tabs| then tabIndex else old(window.value.current)
      ensures step.CancelIdentity? ==> !raised && step.cancel.arrow.text == Cancelled(step.cancel.originalText)
      ensures step.TakeElement? ==> (raised <==> answer.None?)
      ensures step.TakeElement? && raised ==>
        step.take.obj.text == old(step.take.obj.text) && step.take.originalText == old(step.take.originalText)
      ensures step.TakeElement? && !raised ==>
        step.take.obj.text == ElementDisplay(answer.value, step.take.obj.baseName)
        && step.take.originalText == Some(old(step.take.obj.text))
      ensures step.MapElement? && step.mapping.arrow.end != null ==>
        step.mapping.arrow.end.baseName == old(step.mapping.arrow.end.baseName)
      ensures step.MapElement? && step.mapping.arrow.end != null && step.mapping.arrow.start == null ==>
        step.mapping.arrow.end.text == old(step.mapping.arrow.end.text)
        && step.mapping.originalCodomainText == old(step.mapping.originalCodomainText)
        && step.mapping.originalCodomainBaseName == old(step.mapping.originalCodomainBaseName)
      ensures step.MapElement? && step.mapping.arrow.end != null && step.mapping.arrow.start != null ==>
        step.mapping.originalCodomainText == Some(old(step.mapping.arrow.end.text))
        && step.mapping.originalCodomainBaseName == Some(old(step.mapping.arrow.end.baseName))
      ensures step.KernelZero? ==>
        !raised
        && step.kernel.node.text == KernelZeroText(old(step.kernel.node.text))
        && step.kernel.node.baseName == old(step.kernel.node.baseName)
        && step.kernel.originalText == Some(old(step.kernel.node.text))
        && step.kernel.originalBaseName == Some(old(step.kernel.node.baseName))
    {
      SwitchToTab();
      match step {
        case CancelIdentity(c) =>
          c.Apply();
          raised := false;
        case TakeElement(t) =>
          raised := t.Apply(answer);
        case MapElement(m) =>
          raised := m.Apply(answer);
        case KernelZero(k) =>
          k.Apply();
          raised := false;
      }
    }

    /** `undo`: switches tab, then unapplies the step. */
    method Undo()
      modifies (if window.Some? then {window.value} else {}), Labelled(step)
      ensures window.Some? ==> window.value.tabs == old(window.value.tabs)
      ensures window.Some? ==>
        window.value.current == if 0 <= tabIndex < |window.value.tabs| then tabIndex else old(window.value.current)
      ensures step.CancelIdentity? ==> step.cancel.arrow.text == step.cancel.originalText
      ensures step.TakeElement? ==>
        step.take.obj.text == if step.take.originalText.Some? then step.take.originalText.value else old(step.take.obj.text)
      ensures step.MapElement? && step.mapping.arrow.end != null ==>
        step.mapping.arrow.end.text ==
          (if step.mapping.originalCodomainText.Some? then step.mapping.originalCodomainText.value else old(step.mapping.arrow.end.text))
        && step.mapping.arrow.end.baseName ==
          (if step.mapping.originalCodomainBaseName.Some? then step.mapping.originalCodomainBaseName.value else old(step.mapping.arrow.end.baseName))
      ensures step.KernelZero? ==>
        step.kernel.node.text == (if step.kernel.originalText.Some? then step.kernel.originalText.value else old(step.kernel.node.text))
        && step.kernel.node.baseName ==
          (if step.kernel.originalBaseName.Some? then step.kernel.originalBaseName.value else old(step.kernel.node.baseName))
    {
      SwitchToTab();
      match step {
        case CancelIdentity(c) =>
          c.Unapply();
        case TakeElement(t) =>
          t.Unapply();
        case MapElement(m) =>
          m.Unapply();
        case KernelZero(k) =>
          k.Unapply();
      }
    }
  }

  /**
   * A command whose step has not run, redone and then undone, leaves the
   * labels it touched as they were, and the tab showing the scene current.
   */
  method RedoThenUndo(cmd: ProofStepCommand, answer: Option<string>)
    requires Ready(cmd.step)
    modifies (if cmd.window.Some? then {cmd.window.value} else {}), Footprint(cmd.step)
    ensures cmd.window.Some? && 0 <= cmd.tabIndex < |cmd.window.value.tabs| ==> cmd.window.value.current == cmd.tabIndex
    ensures cmd.step.CancelIdentity? ==> cmd.step.cancel.arrow.text == old(cmd.step.cancel.arrow.text)
    ensures cmd.step.TakeElement? ==> cmd.step.take.obj.text == old(cmd.step.take.obj.text)
    ensures cmd.step.MapElement? && cmd.step.mapping.arrow.end != null ==>
      cmd.step.mapping.arrow.end.text == old(cmd.step.mapping.arrow.end.text)
      && cmd.step.mapping.arrow.end.baseName == old(cmd.step.mapping.arrow.end.baseName)
    ensures cmd.step.KernelZero? ==>
      cmd.step.kernel.node.text == old(cmd.step.kernel.node.text)
      && cmd.step.kernel.node.baseName == old(cmd.step.kernel.node.baseName)
  {
    var raised := cmd.Redo(answer);
    cmd.Undo();
  }
}
