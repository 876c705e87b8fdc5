/**
 * Model of `stpa/control_structures.py`: reading a draw.io diagram into the entities of an
 * STPA control structure and the control actions or feedbacks between them.
 *
 * `parse_diagram` is a method with the source's three loops; it is proved equal to the
 * specification function `DiagramOf`, and the properties the source promises are lemmas
 * about `DiagramOf` and the folds it is built from.
 */
module ControlStructures {
  import opened Wrappers
  import opened Text
  import opened DiagramCells

  datatype ControlType = Action | Feedback

  datatype Entity = Entity(name: string)

  datatype ControlActionOrFeedback = ControlActionOrFeedback(
    description: string,
    controlType: ControlType,
    controller: Entity,
    controlled: Entity)

  datatype ControlStructure = ControlStructure(
    entities: set<Entity>,
    controlActionsOrFeedbacks: set<ControlActionOrFeedback>)

  // ---------------------------------------------------------------------------
  // get_control_type
  // ---------------------------------------------------------------------------

  /**
   * The geometric rule of `get_control_type`: left-to-right within a row, top-to-bottom
   * otherwise. The target's height is read from the SOURCE geometry, so both rows are
   * measured with the source height.
   */
  function ControlTypeOf(source: Geometry, target: Geometry): (r: ControlType)
    ensures source.height >= 0 ==>
      (r == Action <==>
        if RangesMeet(source.y, source.y + source.height, target.y, target.y + source.height)
        then source.x < target.x
        else source.y < target.y)
    ensures source.height < 0 ==> (r == Action <==> source.y < target.y)
  {
    var targetHeight := source.height;
    if source.y <= target.y <= source.y + source.height
       || target.y <= source.y <= target.y + targetHeight
    then (if source.x < target.x then Action else Feedback)
    else (if source.y < target.y then Action else Feedback)
  }

  /** `get_control_type`: both cells must carry a geometry (the source asserts it). */
  function GetControlType(sourceCell: Cell, targetCell: Cell): (r: Result<ControlType, Error>)
    ensures r.Ok? <==> sourceCell.geometry.Some? && targetCell.geometry.Some?
    ensures r.Err? ==> r.error == AssertionError
  {
    if sourceCell.geometry.None? || targetCell.geometry.None? then Err(AssertionError)
    else Ok(ControlTypeOf(sourceCell.geometry.value, targetCell.geometry.value))
  }

  /** The target's height never influences the geometric rule. */
  lemma TargetHeightIgnored(source: Geometry, target: Geometry, otherHeight: int)
    ensures ControlTypeOf(source, target) == ControlTypeOf(source, target.(height := otherHeight))
  {
  }

  /**
   * Because of the borrowed height, the two arrows between a short box on the left and a
   * tall box on the right, drawn within the tall box's row, are both classified FEEDBACK.
   */
  lemma BorrowedHeightBreaksSymmetry()
    ensures ControlTypeOf(Geometry(0, 50, 10), Geometry(100, 0, 100)) == Feedback
    ensures ControlTypeOf(Geometry(100, 0, 100), Geometry(0, 50, 10)) == Feedback
  {
  }

  // ---------------------------------------------------------------------------
  // Labels
  // ---------------------------------------------------------------------------

  /** The control type of an edge: an explicit caption prefix first, the geometry otherwise. */
  function Classify(caption: string, sourceCell: Cell, targetCell: Cell): (r: Result<ControlType, Error>)
    ensures IsActionLabel(caption) ==> r == Ok(Action)
    ensures !IsActionLabel(caption) && IsFeedbackLabel(caption) ==> r == Ok(Feedback)
    ensures !IsActionLabel(caption) && !IsFeedbackLabel(caption) ==> r == GetControlType(sourceCell, targetCell)
  {
    if IsActionLabel(caption) then Ok(Action)
    else if IsFeedbackLabel(caption) then Ok(Feedback)
    else GetControlType(sourceCell, targetCell)
  }

  /** An explicit prefix decides the type whatever the two cells look like. */
  lemma LabelOverridesGeometry(caption: string, s: Cell, t: Cell, s': Cell, t': Cell)
    requires IsActionLabel(caption) || IsFeedbackLabel(caption)
    ensures Classify(caption, s, t).Ok?
    ensures Classify(caption, s, t) == Classify(caption, s', t')
  {
  }

  // ---------------------------------------------------------------------------
  // The first loop: the `cells` and `cleaned_values` dictionaries
  // ---------------------------------------------------------------------------

  /**
   * The two dictionaries of the first loop. `order` is the dictionaries' iteration order:
   * the order in which each id was FIRST inserted (rebinding a key keeps its place).
   */
  datatype Table = Table(order: seq<string>, cells: map<string, Cell>, cleaned: map<string, string>)

  predicate Distinct(ids: seq<string>) {
    forall i, j | 0 <= i < j < |ids| :: ids[i] != ids[j]
  }

  predicate WellFormed(t: Table) {
    && Distinct(t.order)
    && (forall id | id in t.cells :: id in t.order)
    && (forall id | id in t.order :: id in t.cells)
    && (forall id | id in t.cells :: t.cells[id].id == id)
    && t.cleaned.Keys <= t.cells.Keys
  }

  /** The first loop over the direct `mxCell` children of the root. */
  function Tabulate(root: seq<XmlElement>, clean: string -> string): (t: Table)
    ensures WellFormed(t)
    decreases |root|
  {
    if root == [] then Table([], map[], map[])
    else
      var t := Tabulate(root[..|root| - 1], clean);
      match root[|root| - 1]
      case Other(_) => t
      case MxCell(cell, _) =>
        Table(
          if cell.id in t.cells then t.order else t.order + [cell.id],
          t.cells[cell.id := cell],
          if cell.value.Some? then t.cleaned[cell.id := clean(cell.value.value)] else t.cleaned)
  }

  /** The direct child at `k` is an `mxCell` with the given id. */
  predicate CellAt(root: seq<XmlElement>, k: int, id: string) {
    0 <= k < |root| && root[k].MxCell? && root[k].cell.id == id
  }

  /** The direct child at `k` is an `mxCell` with the given id and a `value` attribute. */
  predicate ValuedCellAt(root: seq<XmlElement>, k: int, id: string) {
    CellAt(root, k, id) && root[k].cell.value.Some?
  }

  /** The table holds exactly the ids of the direct `mxCell` children. */
  lemma {:induction false} TabulateKeys(root: seq<XmlElement>, clean: string -> string, id: string)
    ensures id in Tabulate(root, clean).cells <==> exists k :: CellAt(root, k, id)
    decreases |root|
  {
    if root != [] {
      var n := |root| - 1;
      var prefix := root[..n];
      TabulateKeys(prefix, clean, id);
      forall k | 0 <= k < n ensures CellAt(prefix, k, id) == CellAt(root, k, id) { }
      if id in Tabulate(root, clean).cells && !CellAt(root, n, id) {
        var k :| CellAt(prefix, k, id);
        assert CellAt(root, k, id);
      }
    }
  }

  /** A duplicate id is silently overwritten: the LAST cell with that id is the one kept. */
  lemma {:induction false} TabulateLastCellWins(root: seq<XmlElement>, clean: string -> string, id: string, k: int)
    requires CellAt(root, k, id)
    requires forall j | k < j < |root| :: !CellAt(root, j, id)
    ensures id in Tabulate(root, clean).cells
    ensures Tabulate(root, clean).cells[id] == root[k].cell
    decreases |root|
  {
    var n := |root| - 1;
    if k < n {
      var prefix := root[..n];
      assert CellAt(prefix, k, id);
      forall j | k < j < n ensures !CellAt(prefix, j, id) {
        assert !CellAt(root, j, id);
      }
      TabulateLastCellWins(prefix, clean, id, k);
      assert !CellAt(root, n, id);
    }
  }

  /** The index of the first direct `mxCell` child with the given id, or `|root|` when there is none. */
  function FirstCellIndex(root: seq<XmlElement>, id: string): (r: nat)
    ensures r <= |root|
    ensures r < |root| ==> CellAt(root, r, id)
    ensures forall j | 0 <= j < r :: !CellAt(root, j, id)
    decreases |root|
  {
    if root == [] then 0
    else if CellAt(root, 0, id) then 0
    else
      var r := 1 + FirstCellIndex(root[1..], id);
      assert forall j | 1 <= j < r :: CellAt(root, j, id) == CellAt(root[1..], j - 1, id);
      r
  }

  /** Dropping the last child keeps the first occurrence of every id seen before it. */
  lemma FirstCellIndexPrefix(root: seq<XmlElement>, id: string)
    requires root != []
    ensures var n := |root| - 1;
      FirstCellIndex(root[..n], id) < n ==> FirstCellIndex(root, id) == FirstCellIndex(root[..n], id)
    ensures var n := |root| - 1;
      FirstCellIndex(root[..n], id) == n && CellAt(root, n, id) ==> FirstCellIndex(root, id) == n
  {
    var n := |root| - 1;
    var r0, r1 := FirstCellIndex(root[..n], id), FirstCellIndex(root, id);
    if r0 < n {
      assert CellAt(root, r0, id);
      if r1 < r0 {
        assert CellAt(root[..n], r1, id);
      }
    } else if CellAt(root, n, id) {
      if r1 < n {
        assert CellAt(root[..n], r1, id);
      }
    }
  }

  /**
   * The dictionaries' iteration order lists the ids by their FIRST occurrence among the
   * direct children: a later duplicate id rebinds the key but keeps its place.
   */
  lemma {:induction false} TabulateOrder(root: seq<XmlElement>, clean: string -> string)
    ensures var order := Tabulate(root, clean).order;
      forall i | 0 <= i < |order| :: FirstCellIndex(root, order[i]) < |root|
    ensures var order := Tabulate(root, clean).order;
      forall i, j | 0 <= i < j < |order| :: FirstCellIndex(root, order[i]) < FirstCellIndex(root, order[j])
    decreases |root|
  {
    if root != [] {
      var n := |root| - 1;
      var before, order := Tabulate(root[..n], clean).order, Tabulate(root, clean).order;
      TabulateOrder(root[..n], clean);
      TabulateOrderKept(root, clean);
      TabulateOrderNew(root, clean);
      TabulateOrderStep(root, clean);
      forall i | 0 <= i < |order|
        ensures FirstCellIndex(root, order[i]) ==
          if i < |before| then FirstCellIndex(root[..n], before[i]) else n
      {
        if i < |before| {
          assert order[i] == before[i];
        }
      }
    }
  }

  /** The last direct child appends its id to the order exactly when the id is new. */
  lemma TabulateOrderStep(root: seq<XmlElement>, clean: string -> string)
    requires root != []
    ensures var n := |root| - 1; var before := Tabulate(root[..n], clean);
      Tabulate(root, clean).order ==
        if root[n].MxCell? && root[n].cell.id !in before.cells
        then before.order + [root[n].cell.id]
        else before.order
  {
  }

  /** The ids listed before the last direct child keep their first occurrence. */
  lemma TabulateOrderKept(root: seq<XmlElement>, clean: string -> string)
    requires root != []
    ensures var n := |root| - 1; var before := Tabulate(root[..n], clean).order;
      forall i | 0 <= i < |before| ::
        FirstCellIndex(root, before[i]) == FirstCellIndex(root[..n], before[i]) < n
  {
    var n := |root| - 1;
    var prefix := root[..n];
    var before := Tabulate(prefix, clean).order;
    forall i | 0 <= i < |before|
      ensures FirstCellIndex(root, before[i]) == FirstCellIndex(prefix, before[i]) < n
    {
      var id := before[i];
      assert id in Tabulate(prefix, clean).cells;
      TabulateKeys(prefix, clean, id);
      var k :| CellAt(prefix, k, id);
      FirstCellIndexPrefix(root, id);
    }
  }

  /** An id the last direct child adds to the order first occurs there. */
  lemma TabulateOrderNew(root: seq<XmlElement>, clean: string -> string)
    requires root != []
    ensures var n := |root| - 1;
      root[n].MxCell? && root[n].cell.id !in Tabulate(root[..n], clean).cells ==>
        FirstCellIndex(root, root[n].cell.id) == n
  {
    var n := |root| - 1;
    if root[n].MxCell? && root[n].cell.id !in Tabulate(root[..n], clean).cells {
      var id := root[n].cell.id;
      TabulateKeys(root[..n], clean, id);
      assert CellAt(root, n, id);
      FirstCellIndexPrefix(root, id);
    }
  }

  /** One step of the table fold, written out on the last direct child. */
  lemma TabulateCleanedStep(root: seq<XmlElement>, clean: string -> string)
    requires root != []
    ensures var n := |root| - 1;
      var before := Tabulate(root[..n], clean).cleaned;
      Tabulate(root, clean).cleaned ==
        if root[n].MxCell? && root[n].cell.value.Some?
        then before[root[n].cell.id := clean(root[n].cell.value.value)]
        else before
  {
  }

  /** Only ids of direct cells that carry a `value` attribute get a cleaned value. */
  lemma {:induction false} TabulateValuedKeys(root: seq<XmlElement>, clean: string -> string, id: string)
    ensures id in Tabulate(root, clean).cleaned <==> exists k :: ValuedCellAt(root, k, id)
    decreases |root|
  {
    if root != [] {
      var n := |root| - 1;
      var prefix := root[..n];
      TabulateValuedKeys(prefix, clean, id);
      TabulateCleanedStep(root, clean);
      forall k | 0 <= k < n ensures ValuedCellAt(prefix, k, id) == ValuedCellAt(root, k, id) { }
      if id in Tabulate(root, clean).cleaned && !ValuedCellAt(root, n, id) {
        var k :| ValuedCellAt(prefix, k, id);
        assert ValuedCellAt(root, k, id);
      }
    }
  }

  /**
   * The cleaned value kept for an id is that of the last cell with that id that HAS a
   * `value` attribute, which is an earlier cell when the last one has none.
   */
  lemma {:induction false} TabulateLastValueWins(root: seq<XmlElement>, clean: string -> string, id: string, k: int)
    requires ValuedCellAt(root, k, id)
    requires forall j | k < j < |root| :: !ValuedCellAt(root, j, id)
    ensures id in Tabulate(root, clean).cleaned
    ensures Tabulate(root, clean).cleaned[id] == clean(root[k].cell.value.value)
    decreases |root|
  {
    var n := |root| - 1;
    TabulateCleanedStep(root, clean);
    if k < n {
      var prefix := root[..n];
      assert ValuedCellAt(prefix, k, id);
      forall j | k < j < n ensures !ValuedCellAt(prefix, j, id) {
        assert !ValuedCellAt(root, j, id);
      }
      TabulateLastValueWins(prefix, clean, id, k);
      assert !ValuedCellAt(root, n, id);
    }
  }

  /** The cells of the table in the dictionary's iteration order (`cells.values()`). */
  function Values(t: Table): (vals: seq<Cell>)
    requires WellFormed(t)
    ensures |vals| == |t.order|
    ensures forall i | 0 <= i < |vals| :: vals[i] == t.cells[t.order[i]]
  {
    seq(|t.order|, i requires 0 <= i < |t.order| => t.cells[t.order[i]])
  }

  /** The values enumerate exactly the cells of the table, each cell under its own id. */
  lemma ValuesAreCells(t: Table)
    requires WellFormed(t)
    ensures forall c | c in Values(t) :: c.id in t.cells && t.cells[c.id] == c
    ensures forall id | id in t.cells :: t.cells[id] in Values(t)
  {
    var vals := Values(t);
    forall c | c in vals ensures c.id in t.cells && t.cells[c.id] == c {
      var i :| 0 <= i < |vals| && vals[i] == c;
    }
    forall id | id in t.cells ensures t.cells[id] in vals {
      var i :| 0 <= i < |t.order| && t.order[i] == id;
      assert vals[i] == t.cells[id];
    }
  }

  // ---------------------------------------------------------------------------
  // The second loop: `entities` and `parent_cleaned_values`
  // ---------------------------------------------------------------------------

  datatype Labels = Labels(entities: map<string, Entity>, parentLabels: map<string, string>)

  /** `cleaned_values.get(id_, '')`. */
  function CleanedOf(cleaned: map<string, string>, id: string): string {
    if id in cleaned then cleaned[id] else ""
  }

  /** `cell.attrib.get('parent', '')`. */
  function ParentOf(cell: Cell): string {
    cell.parent.GetOr("")
  }

  /** A labelled top-level cell: it becomes an entity. */
  predicate IsEntityCell(cleaned: map<string, string>, cell: Cell) {
    CleanedOf(cleaned, cell.id) != "" && ParentOf(cell) == ROOT_PARENT
  }

  /** A labelled cell below `parent` (other than the root): it lends its caption to `parent`. */
  predicate IsLabelFor(cleaned: map<string, string>, cell: Cell, parent: string) {
    CleanedOf(cleaned, cell.id) != "" && ParentOf(cell) != ROOT_PARENT && ParentOf(cell) == parent
  }

  /** The second loop. */
  function Gather(cleaned: map<string, string>, vals: seq<Cell>): Labels
    decreases |vals|
  {
    if vals == [] then Labels(map[], map[])
    else
      var g := Gather(cleaned, vals[..|vals| - 1]);
      var cell := vals[|vals| - 1];
      var value := CleanedOf(cleaned, cell.id);
      if value == "" then g
      else if ParentOf(cell) == ROOT_PARENT then g.(entities := g.entities[cell.id := Entity(value)])
      else g.(parentLabels := g.parentLabels[ParentOf(cell) := value])
  }

  /** One step of the second loop, as it affects the entities. */
  lemma GatherEntitiesStep(cleaned: map<string, string>, vals: seq<Cell>)
    requires vals != []
    ensures var last, before := vals[|vals| - 1], Gather(cleaned, vals[..|vals| - 1]).entities;
      Gather(cleaned, vals).entities ==
        if IsEntityCell(cleaned, last) then before[last.id := Entity(CleanedOf(cleaned, last.id))] else before
  {
  }

  /** Every labelled top-level cell, and nothing else, is an entity named by its cleaned caption. */
  lemma {:induction false} GatherEntities(cleaned: map<string, string>, vals: seq<Cell>)
    ensures var g := Gather(cleaned, vals);
      && (forall id :: id in g.entities <==> exists c :: c in vals && c.id == id && IsEntityCell(cleaned, c))
      && (forall id | id in g.entities :: g.entities[id] == Entity(CleanedOf(cleaned, id)))
    decreases |vals|
  {
    if vals != [] {
      var n := |vals| - 1;
      var prefix, last := vals[..n], vals[n];
      GatherEntities(cleaned, prefix);
      GatherEntitiesStep(cleaned, vals);
      var entities, before := Gather(cleaned, vals).entities, Gather(cleaned, prefix).entities;
      assert vals == prefix + [last];
      forall id ensures id in entities <==> exists c :: c in vals && c.id == id && IsEntityCell(cleaned, c) {
        if id in entities {
          if IsEntityCell(cleaned, last) && id == last.id {
            assert last in vals;
          } else {
            var c :| c in prefix && c.id == id && IsEntityCell(cleaned, c);
            assert c in vals;
          }
        }
        if exists c :: c in vals && c.id == id && IsEntityCell(cleaned, c) {
          var c :| c in vals && c.id == id && IsEntityCell(cleaned, c);
          assert c == last || c in prefix;
        }
      }
    }
  }

  /** One step of the second loop, as it affects the caption of `parent`. */
  lemma GatherLabelStep(cleaned: map<string, string>, vals: seq<Cell>, parent: string)
    requires vals != []
    ensures var last, before := vals[|vals| - 1], Gather(cleaned, vals[..|vals| - 1]).parentLabels;
      var after := Gather(cleaned, vals).parentLabels;
      if IsLabelFor(cleaned, last, parent) then parent in after && after[parent] == CleanedOf(cleaned, last.id)
      else (parent in after <==> parent in before) && (parent in before ==> after[parent] == before[parent])
  {
  }

  /** An edge gets a caption iff some labelled cell other than a top-level one names it as parent. */
  lemma {:induction false} GatherParentLabels(cleaned: map<string, string>, vals: seq<Cell>, parent: string)
    ensures parent in Gather(cleaned, vals).parentLabels <==>
      exists k :: 0 <= k < |vals| && IsLabelFor(cleaned, vals[k], parent)
    decreases |vals|
  {
    if vals != [] {
      var n := |vals| - 1;
      var prefix := vals[..n];
      GatherParentLabels(cleaned, prefix, parent);
      GatherLabelStep(cleaned, vals, parent);
      if exists k :: 0 <= k < n && IsLabelFor(cleaned, prefix[k], parent) {
        var k :| 0 <= k < n && IsLabelFor(cleaned, prefix[k], parent);
        assert IsLabelFor(cleaned, vals[k], parent);
      }
      if exists k :: 0 <= k < n && IsLabelFor(cleaned, vals[k], parent) {
        var k :| 0 <= k < n && IsLabelFor(cleaned, vals[k], parent);
        assert IsLabelFor(cleaned, prefix[k], parent);
      }
    }
  }

  /** The caption an edge gets is that of the LAST labelled cell whose parent is the edge. */
  lemma {:induction false} GatherLastLabelWins(cleaned: map<string, string>, vals: seq<Cell>, parent: string, k: int)
    requires 0 <= k < |vals| && IsLabelFor(cleaned, vals[k], parent)
    requires forall j | k < j < |vals| :: !IsLabelFor(cleaned, vals[j], parent)
    ensures parent in Gather(cleaned, vals).parentLabels
    ensures Gather(cleaned, vals).parentLabels[parent] == CleanedOf(cleaned, vals[k].id)
    decreases |vals|
  {
    var n := |vals| - 1;
    GatherLabelStep(cleaned, vals, parent);
    if k < n {
      var prefix := vals[..n];
      assert IsLabelFor(cleaned, prefix[k], parent);
      forall j | k < j < n ensures !IsLabelFor(cleaned, prefix[j], parent) {
        assert prefix[j] == vals[j];
      }
      GatherLastLabelWins(cleaned, prefix, parent, k);
    }
  }

  // ---------------------------------------------------------------------------
  // The third loop: one record per edge
  // ---------------------------------------------------------------------------

  /** `edge == '1'` with both a `source` and a `target` attribute. */
  predicate IsEdge(cell: Cell) {
    cell.edge == Some("1") && cell.source.Some? && cell.target.Some?
  }

  /** The body of the third loop for one edge cell. */
  function Resolve(cells: map<string, Cell>, g: Labels, edge: Cell): (r: Result<ControlActionOrFeedback, Error>)
    requires IsEdge(edge)
    ensures var source, target, caption := edge.source.value, edge.target.value, CleanedOf(g.parentLabels, edge.id);
      r.Ok? <==>
        && source in cells && target in cells
        && source in g.entities && target in g.entities
        && (IsActionLabel(caption) || IsFeedbackLabel(caption)
            || (cells[source].geometry.Some? && cells[target].geometry.Some?))
    ensures var source, target, caption := edge.source.value, edge.target.value, CleanedOf(g.parentLabels, edge.id);
      r.Ok? ==>
        && r.value.description == caption
        && (IsActionLabel(caption) ==> r.value.controlType == Action)
        && (!IsActionLabel(caption) && IsFeedbackLabel(caption) ==> r.value.controlType == Feedback)
        && (!IsActionLabel(caption) && !IsFeedbackLabel(caption) ==>
              r.value.controlType == ControlTypeOf(cells[source].geometry.value, cells[target].geometry.value))
        && (r.value.controlType == Action ==>
              r.value.controller == g.entities[source] && r.value.controlled == g.entities[target])
        && (r.value.controlType == Feedback ==>
              r.value.controller == g.entities[target] && r.value.controlled == g.entities[source])
    ensures r.Err? ==> r.error == AssertionError || r.error.KeyError?
  {
    var source, target := edge.source.value, edge.target.value;
    var caption := CleanedOf(g.parentLabels, edge.id);
    if source !in cells then Err(KeyError(source))
    else if target !in cells then Err(KeyError(target))
    else
      var controlType :- Classify(caption, cells[source], cells[target]);
      if source !in g.entities then Err(KeyError(source))
      else if target !in g.entities then Err(KeyError(target))
      else
        var sourceEntity, targetEntity := g.entities[source], g.entities[target];
        match controlType
        case Action => Ok(ControlActionOrFeedback(caption, Action, sourceEntity, targetEntity))
        case Feedback => Ok(ControlActionOrFeedback(caption, Feedback, targetEntity, sourceEntity))
  }

  /** The third loop: the records in iteration order, or the first exception raised. */
  function Links(cells: map<string, Cell>, g: Labels, vals: seq<Cell>): Result<seq<ControlActionOrFeedback>, Error>
    decreases |vals|
  {
    if vals == [] then Ok([])
    else
      var links := Links(cells, g, vals[..|vals| - 1]);
      var cell := vals[|vals| - 1];
      if links.Err? || !IsEdge(cell) then links
      else match Resolve(cells, g, cell)
        case Ok(link) => Ok(links.value + [link])
        case Err(e) => Err(e)
  }

  /** One more cell extends the third loop by at most one record. */
  lemma LinksStep(cells: map<string, Cell>, g: Labels, vals: seq<Cell>, i: nat)
    requires i < |vals|
    ensures var links := Links(cells, g, vals[..i]);
      Links(cells, g, vals[..i + 1]) ==
        if links.Err? || !IsEdge(vals[i]) then links
        else match Resolve(cells, g, vals[i])
          case Ok(link) => Ok(links.value + [link])
          case Err(e) => Err(e)
  {
    assert vals[..i + 1][..i] == vals[..i];
  }

  /** Once an exception is raised, the rest of the cells do not matter. */
  lemma {:induction false} LinksErrStops(cells: map<string, Cell>, g: Labels, vals: seq<Cell>, k: nat)
    requires k <= |vals|
    requires Links(cells, g, vals[..k]).Err?
    ensures Links(cells, g, vals) == Links(cells, g, vals[..k])
    decreases |vals| - k
  {
    if k < |vals| {
      var next := vals[..k + 1];
      assert next[..k] == vals[..k];
      LinksErrStops(cells, g, vals, k + 1);
    } else {
      assert vals[..k] == vals;
    }
  }

  /** Every edge cell yields exactly one record, and nothing else does. */
  lemma {:induction false} LinksExactlyEdges(cells: map<string, Cell>, g: Labels, vals: seq<Cell>)
    ensures var links := Links(cells, g, vals);
      && (links.Ok? <==> forall c | c in vals && IsEdge(c) :: Resolve(cells, g, c).Ok?)
      && (links.Ok? ==> forall l :: l in links.value <==>
            exists c :: c in vals && IsEdge(c) && Resolve(cells, g, c) == Ok(l))
    decreases |vals|
  {
    if vals != [] {
      var prefix := vals[..|vals| - 1];
      LinksExactlyEdges(cells, g, prefix);
      assert vals == prefix + [vals[|vals| - 1]];
    }
  }

  // ---------------------------------------------------------------------------
  // parse_diagram
  // ---------------------------------------------------------------------------

  /** What `parse_diagram` returns for the direct children `root` of the diagram's root element. */
  function DiagramOf(root: seq<XmlElement>, clean: string -> string): Result<ControlStructure, Error> {
    var t := Tabulate(root, clean);
    var g := Gather(t.cleaned, Values(t));
    var links := Links(t.cells, g, Values(t));
    if links.Err? then Err(links.error)
    else Ok(ControlStructure(g.entities.Values, set l | l in links.value))
  }

  /**
   * `parse_diagram` over the direct children of the root element, with `clean` standing for
   * `clean_html_text`: its three loops in turn, then the two frozensets.
   */
  method ParseDiagram(root: seq<XmlElement>, clean: string -> string) returns (r: Result<ControlStructure, Error>)
    ensures r == DiagramOf(root, clean)
  {
    var order, cells, cleanedValues := TabulateCells(root, clean);
    var vals := Values(Table(order, cells, cleanedValues));
    var entities, parentCleanedValues := GatherLabels(cleanedValues, vals);
    var links := CollectLinks(cells, entities, parentCleanedValues, vals);
    if links.Err? {
      return Err(links.error);
    }
    r := Ok(ControlStructure(entities.Values, set l | l in links.value));
  }

  /** The first loop of `parse_diagram`: the `cells` and `cleaned_values` dictionaries. */
  method TabulateCells(root: seq<XmlElement>, clean: string -> string)
    returns (order: seq<string>, cells: map<string, Cell>, cleanedValues: map<string, string>)
    ensures Table(order, cells, cleanedValues) == Tabulate(root, clean)
  {
    order, cells, cleanedValues := [], map[], map[];
    for i := 0 to |root|
      invariant Table(order, cells, cleanedValues) == Tabulate(root[..i], clean)
    {
      assert root[..i + 1][..i] == root[..i];
      if root[i].MxCell? {
        var cell := root[i].cell;
        if cell.id !in cells {
          order := order + [cell.id];
        }
        cells := cells[cell.id := cell];
        if cell.value.Some? {
          cleanedValues := cleanedValues[cell.id := clean(cell.value.value)];
        }
      }
    }
    assert root[..|root|] == root;
  }

  /** The second loop of `parse_diagram`: the `entities` and `parent_cleaned_values` dictionaries. */
  method GatherLabels(cleanedValues: map<string, string>, vals: seq<Cell>)
    returns (entities: map<string, Entity>, parentCleanedValues: map<string, string>)
    ensures Labels(entities, parentCleanedValues) == Gather(cleanedValues, vals)
  {
    entities, parentCleanedValues := map[], map[];
    for i := 0 to |vals|
      invariant Labels(entities, parentCleanedValues) == Gather(cleanedValues, vals[..i])
    {
      assert vals[..i + 1][..i] == vals[..i];
      var cell := vals[i];
      var id := cell.id;
      var cleanedValue := if id in cleanedValues then cleanedValues[id] else "";
      var parent := if cell.parent.Some? then cell.parent.value else "";
      if cleanedValue != "" {
        if parent == ROOT_PARENT {
          entities := entities[id := Entity(cleanedValue)];
        } else {
          parentCleanedValues := parentCleanedValues[parent := cleanedValue];
        }
      }
    }
    assert vals[..|vals|] == vals;
  }

  /** The third loop of `parse_diagram`: the list of records, or the first exception. */
  method CollectLinks(cells: map<string, Cell>, entities: map<string, Entity>, parentCleanedValues: map<string, string>,
                      vals: seq<Cell>)
    returns (r: Result<seq<ControlActionOrFeedback>, Error>)
    ensures r == Links(cells, Labels(entities, parentCleanedValues), vals)
  {
    ghost var g := Labels(entities, parentCleanedValues);
    var controlActionsOrFeedbacks: seq<ControlActionOrFeedback> := [];
    for i := 0 to |vals|
      invariant Links(cells, g, vals[..i]) == Ok(controlActionsOrFeedbacks)
    {
      LinksStep(cells, g, vals, i);
      var cell := vals[i];
      if cell.edge == Some("1") && cell.source.Some? && cell.target.Some? {
        var link := ResolveEdge(cells, entities, parentCleanedValues, cell);
        if link.Err? {
          r := Err(link.error);
          LinksErrStops(cells, g, vals, i + 1);
          return;
        }
        controlActionsOrFeedbacks := controlActionsOrFeedbacks + [link.value];
      }
    }
    assert vals[..|vals|] == vals;
    r := Ok(controlActionsOrFeedbacks);
  }

  /** The body of the third loop of `parse_diagram` for one edge cell. */
  method ResolveEdge(cells: map<string, Cell>, entities: map<string, Entity>, parentCleanedValues: map<string, string>,
                     cell: Cell)
    returns (r: Result<ControlActionOrFeedback, Error>)
    requires IsEdge(cell)
    ensures r == Resolve(cells, Labels(entities, parentCleanedValues), cell)
  {
    var id := cell.id;
    var cleanedValue := if id in parentCleanedValues then parentCleanedValues[id] else "";
    var source, target := cell.source.value, cell.target.value;
    if source !in cells || target !in cells {
      return Err(KeyError(if source !in cells then source else target));
    }
    var sourceCell, targetCell := cells[source], cells[target];
    var controlType: ControlType;
    if StartsWith(Lower(cleanedValue), "action") {
      controlType := Action;
    } else if StartsWith(Lower(cleanedValue), "feedback") {
      controlType := Feedback;
    } else {
      var computed := GetControlType(sourceCell, targetCell);
      if computed.Err? {
        return Err(computed.error);
      }
      controlType := computed.value;
    }
    if source !in entities || target !in entities {
      return Err(KeyError(if source !in entities then source else target));
    }
    var sourceEntity, targetEntity := entities[source], entities[target];
    var controller, controlled;
    match controlType {
      case Action =>
        controller, controlled := sourceEntity, targetEntity;
      case Feedback =>
        controller, controlled := targetEntity, sourceEntity;
    }
    r := Ok(ControlActionOrFeedback(cleanedValue, controlType, controller, controlled));
  }

  // ---------------------------------------------------------------------------
  // Properties of the parsed control structure
  // ---------------------------------------------------------------------------

  /** Every controller and every controlled entity of a record is in the entity set. */
  lemma ReferentialCompleteness(root: seq<XmlElement>, clean: string -> string)
    requires DiagramOf(root, clean).Ok?
    ensures var s := DiagramOf(root, clean).value;
      forall l | l in s.controlActionsOrFeedbacks :: l.controller in s.entities && l.controlled in s.entities
  {
    var t := Tabulate(root, clean);
    var g := Gather(t.cleaned, Values(t));
    LinksExactlyEdges(t.cells, g, Values(t));
  }

  /** The entity map's values, stated over any well-formed table. */
  lemma EntitiesOfTable(t: Table)
    requires WellFormed(t)
    ensures forall e :: e in Gather(t.cleaned, Values(t)).entities.Values <==>
      exists id :: id in t.cells && IsEntityCell(t.cleaned, t.cells[id]) && e == Entity(t.cleaned[id])
  {
    forall e ensures e in Gather(t.cleaned, Values(t)).entities.Values <==>
      exists id :: id in t.cells && IsEntityCell(t.cleaned, t.cells[id]) && e == Entity(t.cleaned[id])
    {
      if e in Gather(t.cleaned, Values(t)).entities.Values {
        EntityHasCell(t, e);
      }
      if exists id :: id in t.cells && IsEntityCell(t.cleaned, t.cells[id]) && e == Entity(t.cleaned[id]) {
        var id :| id in t.cells && IsEntityCell(t.cleaned, t.cells[id]) && e == Entity(t.cleaned[id]);
        CellHasEntity(t, id);
      }
    }
  }

  /** Every entity comes from a labelled top-level cell of the table. */
  lemma EntityHasCell(t: Table, e: Entity)
    requires WellFormed(t)
    requires e in Gather(t.cleaned, Values(t)).entities.Values
    ensures exists id :: id in t.cells && IsEntityCell(t.cleaned, t.cells[id]) && e == Entity(t.cleaned[id])
  {
    var vals := Values(t);
    var g := Gather(t.cleaned, vals);
    GatherEntities(t.cleaned, vals);
    var id :| id in g.entities && g.entities[id] == e;
    var c :| c in vals && c.id == id && IsEntityCell(t.cleaned, c);
    ValuesAreCells(t);
    assert t.cells[id] == c;
  }

  /** Every labelled top-level cell of the table gives an entity. */
  lemma CellHasEntity(t: Table, id: string)
    requires WellFormed(t)
    requires id in t.cells && IsEntityCell(t.cleaned, t.cells[id])
    ensures Entity(t.cleaned[id]) in Gather(t.cleaned, Values(t)).entities.Values
  {
    var vals := Values(t);
    var g := Gather(t.cleaned, vals);
    GatherEntities(t.cleaned, vals);
    ValuesAreCells(t);
    assert t.cells[id] in vals;
    assert id in g.entities;
  }

  /**
   * The entity set holds one entity per distinct cleaned caption of a labelled top-level cell:
   * cells with equal labels collapse into one entity. `t` is the table of the first loop.
   */
  lemma EntitiesAreLabelledTopLevelCells(root: seq<XmlElement>, clean: string -> string, t: Table)
    requires t == Tabulate(root, clean)
    requires DiagramOf(root, clean).Ok?
    ensures forall e :: e in DiagramOf(root, clean).value.entities <==>
      exists id :: id in t.cells && IsEntityCell(t.cleaned, t.cells[id]) && e == Entity(t.cleaned[id])
  {
    EntitiesOfTable(t);
  }

  /** The records, stated over any well-formed table and the labels gathered from it. */
  lemma RecordsOfTable(t: Table)
    requires WellFormed(t)
    ensures var g := Gather(t.cleaned, Values(t));
      var links := Links(t.cells, g, Values(t));
      && (links.Ok? <==> forall id | id in t.cells && IsEdge(t.cells[id]) :: Resolve(t.cells, g, t.cells[id]).Ok?)
      && (links.Ok? ==> forall l :: l in links.value <==>
            exists id :: id in t.cells && IsEdge(t.cells[id]) && Resolve(t.cells, g, t.cells[id]) == Ok(l))
  {
    var vals := Values(t);
    var g := Gather(t.cleaned, vals);
    LinksExactlyEdges(t.cells, g, vals);
    ValuesAreCells(t);
    var links := Links(t.cells, g, vals);
    if links.Ok? {
      forall l | l in links.value
        ensures exists id :: id in t.cells && IsEdge(t.cells[id]) && Resolve(t.cells, g, t.cells[id]) == Ok(l)
      {
        var c :| c in vals && IsEdge(c) && Resolve(t.cells, g, c) == Ok(l);
        assert t.cells[c.id] == c;
      }
    } else {
      var c :| c in vals && IsEdge(c) && !Resolve(t.cells, g, c).Ok?;
      assert t.cells[c.id] == c;
    }
  }

  /**
   * The diagram parses iff every edge resolves; then the records are exactly one per edge,
   * each as `Resolve` describes it (caption, prefix-then-geometry type, direction). `t` and
   * `g` are the results of the first two loops.
   */
  lemma RecordsAreEdges(root: seq<XmlElement>, clean: string -> string, t: Table, g: Labels)
    requires t == Tabulate(root, clean) && g == Gather(t.cleaned, Values(t))
    ensures DiagramOf(root, clean).Ok? <==>
      forall id | id in t.cells && IsEdge(t.cells[id]) :: Resolve(t.cells, g, t.cells[id]).Ok?
    ensures DiagramOf(root, clean).Ok? ==>
      forall l :: l in DiagramOf(root, clean).value.controlActionsOrFeedbacks <==>
        exists id :: id in t.cells && IsEdge(t.cells[id]) && Resolve(t.cells, g, t.cells[id]) == Ok(l)
  {
    RecordsOfTable(t);
  }

  /**
   * An edge whose source or target is not a labelled top-level cell (or not a cell at all)
   * makes the whole parse fail.
   */
  lemma UnresolvedEndpointFails(root: seq<XmlElement>, clean: string -> string, id: string)
    requires var t := Tabulate(root, clean);
      && id in t.cells && IsEdge(t.cells[id])
      && (!IsEntityId(t, t.cells[id].source.value) || !IsEntityId(t, t.cells[id].target.value))
    ensures DiagramOf(root, clean).Err?
  {
    var t := Tabulate(root, clean);
    var vals := Values(t);
    var g := Gather(t.cleaned, vals);
    RecordsAreEdges(root, clean, t, g);
    GatherEntities(t.cleaned, vals);
    ValuesAreCells(t);
    assert t.cells[id].source.value !in g.entities || t.cells[id].target.value !in g.entities;
  }

  /** An id of the table that names a labelled top-level cell: an entity. */
  predicate IsEntityId(t: Table, id: string) {
    id in t.cells && IsEntityCell(t.cleaned, t.cells[id])
  }

  /** Two cells that agree as direct children (same kind, same cell) are interchangeable. */
  predicate SameDirectCell(a: XmlElement, b: XmlElement) {
    a.MxCell? == b.MxCell? && (a.MxCell? ==> a.cell == b.cell)
  }

  /** Only the direct children of the root are read: nested `mxCell`s are ignored. */
  lemma {:induction false} NestedCellsIgnored(root: seq<XmlElement>, root': seq<XmlElement>, clean: string -> string)
    requires |root| == |root'|
    requires forall k | 0 <= k < |root| :: SameDirectCell(root[k], root'[k])
    ensures Tabulate(root, clean) == Tabulate(root', clean)
    ensures DiagramOf(root, clean) == DiagramOf(root', clean)
    decreases |root|
  {
    if root != [] {
      var n := |root| - 1;
      NestedCellsIgnored(root[..n], root'[..n], clean);
    }
  }
}
