/**
 * Model of `stpa/diagrams.py`: the value records the diagram parser produces, with the
 * equality and hashing their classes define. A Python set of these records is a Dafny
 * `set<DiagramElement>`; that is faithful because the source's `__eq__` coincides with
 * structural equality (see `Equals`) and its hash is consistent with it.
 */
module Diagrams {

  /** A box of the diagram, identified by its caption alone. */
  datatype ControlStructure = ControlStructure(name: string)

  /**
   * The three record classes. `ControlAction` and `ControlFeedback` share the two fields of
   * their abstract base `ActionFeedback` and add one string each.
   */
  datatype DiagramElement =
    | StructureElement(structure: ControlStructure)
    | ControlAction(controlled: ControlStructure, controller: ControlStructure, action: string)
    | ControlFeedback(controlled: ControlStructure, controller: ControlStructure, feedback: string)

  /** `ControlStructure.__eq__`: another `ControlStructure` with the same name. */
  function StructureEquals(a: ControlStructure, b: ControlStructure): (r: bool)
    ensures r <==> a.name == b.name
    ensures r <==> a == b
  {
    a.name == b.name
  }

  /**
   * `__eq__` of the three classes: an `isinstance` test on the other operand, then the
   * fields, the structures themselves compared by `ControlStructure.__eq__`.
   */
  function Equals(a: DiagramElement, b: DiagramElement): (r: bool)
    ensures r <==> a == b
    ensures a.StructureElement? && b.StructureElement? ==> (r <==> a.structure.name == b.structure.name)
    ensures a.ControlAction? && b.ControlAction? ==>
      (r <==> a.action == b.action && a.controlled == b.controlled && a.controller == b.controller)
    ensures a.ControlFeedback? && b.ControlFeedback? ==>
      (r <==> a.feedback == b.feedback && a.controlled == b.controlled && a.controller == b.controller)
    ensures a.ControlAction? != b.ControlAction? || a.ControlFeedback? != b.ControlFeedback? ==> !r
  {
    match a
    case StructureElement(s) =>
      b.StructureElement? && StructureEquals(s, b.structure)
    case ControlAction(controlled, controller, action) =>
      b.ControlAction? && action == b.action
      && StructureEquals(controlled, b.controlled) && StructureEquals(controller, b.controller)
    case ControlFeedback(controlled, controller, feedback) =>
      b.ControlFeedback? && feedback == b.feedback
      && StructureEquals(controlled, b.controlled) && StructureEquals(controller, b.controller)
  }

  /** What each class passes to `hash`: the name, or a triple of strings. */
  datatype HashInput =
    | NameInput(name: string)
    | TripleInput(text: string, controlledName: string, controllerName: string)

  /** `__hash__` of the three classes, as the value handed to Python's `hash`. */
  function HashKey(e: DiagramElement): (k: HashInput)
    ensures e.StructureElement? ==> k == NameInput(e.structure.name)
    ensures e.ControlAction? ==> k == TripleInput(e.action, e.controlled.name, e.controller.name)
    ensures e.ControlFeedback? ==> k == TripleInput(e.feedback, e.controlled.name, e.controller.name)
  {
    match e
    case StructureElement(s) => NameInput(s.name)
    case ControlAction(controlled, controller, action) => TripleInput(action, controlled.name, controller.name)
    case ControlFeedback(controlled, controller, feedback) => TripleInput(feedback, controlled.name, controller.name)
  }

  /** Equal records have equal hashes, as a Python set requires. */
  lemma HashConsistent(a: DiagramElement, b: DiagramElement)
    requires Equals(a, b)
    ensures HashKey(a) == HashKey(b)
  {
  }

  /** A control action never equals a control feedback, even with identical fields. */
  lemma ActionNeverEqualsFeedback(controlled: ControlStructure, controller: ControlStructure, text: string)
    ensures !Equals(ControlAction(controlled, controller, text), ControlFeedback(controlled, controller, text))
    ensures !Equals(ControlFeedback(controlled, controller, text), ControlAction(controlled, controller, text))
    ensures HashKey(ControlAction(controlled, controller, text)) == HashKey(ControlFeedback(controlled, controller, text))
  {
  }
}
