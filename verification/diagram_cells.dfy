/**
 * The already-parsed shape of a draw.io document: `mxCell` elements with their attributes
 * and the integer geometry of their `mxGeometry` child, nested as in the XML tree.
 */
module DiagramCells {
  import opened Wrappers
  import opened Text

  /** The `parent` attribute value that marks a top-level box of the control structure. */
  const ROOT_PARENT: string := "1"

  /** The `x`, `y` and `height` attributes of a cell's `mxGeometry` child, already read as integers. */
  datatype Geometry = Geometry(x: int, y: int, height: int)

  /** One `mxCell`: its attributes (absent ones are `None`) and its geometry child, if any. */
  datatype Cell = Cell(
    id: string,
    value: Option<string>,
    parent: Option<string>,
    edge: Option<string>,
    source: Option<string>,
    target: Option<string>,
    geometry: Option<Geometry>)

  /** An XML element: an `mxCell` or any other element, each with its child elements. */
  datatype XmlElement =
    | MxCell(cell: Cell, children: seq<XmlElement>)
    | Other(children: seq<XmlElement>)

  /** The Python exceptions the parsers can raise. */
  datatype Error =
    | KeyError(key: string)
    | ValueError(message: string)
    | AttributeError(name: string)
    | AssertionError

  /** The closed ranges [lo1, hi1] and [lo2, hi2] are both non-empty and share a point. */
  predicate RangesMeet(lo1: int, hi1: int, lo2: int, hi2: int) {
    lo1 <= hi1 && lo2 <= hi2 && (if lo1 < lo2 then lo2 else lo1) <= (if hi1 < hi2 then hi1 else hi2)
  }

  /** A caption that, lower-cased, starts with `action`: an explicit control action. */
  predicate IsActionLabel(caption: string) {
    StartsWith(Lower(caption), "action")
  }

  /** A caption that, lower-cased, starts with `feedback`: an explicit feedback. */
  predicate IsFeedbackLabel(caption: string) {
    StartsWith(Lower(caption), "feedback")
  }
}
