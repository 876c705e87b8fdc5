# STPA control structures and definitions, in Dafny

This project models the core of `stpa`, a Python package for System-Theoretic Process
Analysis (STPA). The package has four parts.

- **Diagram readers.** They turn a draw.io box-and-arrow diagram into a control structure.
  The result holds entities (the boxes) and control actions or feedbacks (the arrows).
  There are two readers:
  - `ControlStructure.parse_diagram` reads the direct cells of the diagram into
    `Entity` and `ControlActionOrFeedback` values.
  - The older, stateful `DiagramParser` flattens nested cells. It fills three instance
    attributes with the value records of `diagrams.py`.
- **Diagram records.** `ControlStructure`, `ControlAction` and `ControlFeedback` have
  their own equality and hash.
- **Definition registry.** Losses, hazards, system-level constraints and sub-hazards are
  numbered automatically per label: `L-1`, `H-4.2`, `SC-3`. They render as
  `name: body [links]`.
- **Synthesis text helpers.** These cut renderings into name, body and links, number and
  un-number lines, and pick numbered definitions out of a reply.

Files:

| file | models |
|---|---|
| `wrappers.dfy` | `Option`, `Result` and `Outcome`; a Python exception is an `Err` or `Fail` value |
| `text.dfy` | `str.isspace` (which is also what `\s` matches), ASCII `lower`, `startswith`, `strip`, `str.join`, and decimal rendering |
| `diagram_cells.dfy` | the already-parsed draw.io document: `mxCell` attributes, integer geometry, nesting, and the exceptions |
| `control_structures.dfy` | `stpa/control_structures.py` |
| `diagrams.dfy` | `stpa/diagrams.py` |
| `diagram_parser.dfy` | `stpa/diagram_parser.py` |
| `definitions.dfy` | `stpa/definitions.py` |
| `synthesis.dfy` | the text helpers of `stpa/synthesis.py` |

The imperative parts keep their form.

- `parse_diagram` is the method `ParseDiagram`. Each of the source's three loops is a
  method of its own (`TabulateCells`, `GatherLabels`, `CollectLinks`, the last one with
  its loop body in `ResolveEdge`), proved against a specification function. Together they
  compute `DiagramOf`, and the promised properties are lemmas about `DiagramOf`.
- `DiagramParser` is a class with the three attributes as fields.
  - `ParseFile` is proved to leave exactly the state `ParseFileSpec` describes. That state
    includes whatever was recorded before an exception.
  - Lemmas about `ParseFileSpec` state when the parse raises and what it records.
- The class-level counter and lookup of `Definition` are the fields of a `Registry`
  object. Constructing a definition is `Registry.Define`.

Two foreign normalisers are parameters of type `string -> string`:

- BeautifulSoup's `get_text()` inside `DiagramParser.clean_text` (`stripTags`);
- `clean_html_text` in `parse_diagram` (`clean`).

The regular-expression whitespace collapse of `clean_text` is modelled concretely.

## Model

| member | source | states |
|---|---|---|
| ControlStructures.ControlTypeOf | stpa/control_structures.py:47-63 | The geometric rule. If the rows meet, ACTION iff the source is left of the target; otherwise ACTION iff the source is above. Both rows are measured with the source height. |
| ControlStructures.GetControlType | stpa/control_structures.py:36-63 | Succeeds iff both cells have a geometry child; otherwise it is the `AssertionError` of the two asserts. |
| ControlStructures.TargetHeightIgnored | stpa/control_structures.py:49-52 | Changing the target's height never changes the control type, because the target height is read from the source geometry. |
| ControlStructures.BorrowedHeightBreaksSymmetry | stpa/control_structures.py:52-61 | Concrete pair of boxes: a tall box level with a short one. Both directions of the arrow come out as FEEDBACK, because the borrowed height misses the overlap one way. |
| ControlStructures.Classify | stpa/control_structures.py:108-116 | A lower-cased `action` prefix gives ACTION and a `feedback` prefix gives FEEDBACK, with `action` checked first. Otherwise the geometry decides. |
| ControlStructures.LabelOverridesGeometry | stpa/control_structures.py:108-111 | With an explicit prefix, the type is the same whatever the two cells look like, and it never fails. |
| ControlStructures.Tabulate | stpa/control_structures.py:69-79 | The first loop's dictionaries. Iteration order lists each id once, every key is in the order, each cell is stored under its own id, and cleaned values exist only for stored ids. `TabulateOrder` states what the order is. |
| ControlStructures.TabulateOrder | stpa/control_structures.py:72-74 | The dictionaries iterate in first-insertion order: ids are listed by their FIRST occurrence among the direct children, and a later duplicate rebinds the key without moving it. |
| ControlStructures.TabulateKeys | stpa/control_structures.py:72-74 | The ids in the cell dictionary are exactly those of the direct `mxCell` children. |
| ControlStructures.TabulateLastCellWins | stpa/control_structures.py:72-74 | A duplicate id is overwritten silently, so the cell kept under an id is the last direct child with that id. |
| ControlStructures.TabulateCells | stpa/control_structures.py:69-79 | The first loop builds the dictionaries `Tabulate` describes, in the same iteration order. |
| ControlStructures.TabulateValuedKeys | stpa/control_structures.py:76-79 | An id has a cleaned value iff some direct cell with that id has a `value` attribute. |
| ControlStructures.TabulateLastValueWins | stpa/control_structures.py:72-79 | The cleaned value kept for an id comes from the last cell with that id that has a `value`. If the last cell has none, the value of an earlier cell stays. |
| ControlStructures.ValuesAreCells | stpa/control_structures.py:84 | The values are exactly the cells of the dictionary, each under its own id. |
| ControlStructures.Gather | stpa/control_structures.py:81-93 | Specification of the second loop. Its contents are stated by `GatherEntities`, `GatherParentLabels` and `GatherLastLabelWins`, and `GatherLabels` is proved to compute it. |
| ControlStructures.GatherEntities | stpa/control_structures.py:84-91 | The second loop makes exactly the cells with parent `1` and a non-empty cleaned value into entities, each named by its cleaned value. |
| ControlStructures.GatherParentLabels | stpa/control_structures.py:84-93 | A cell gets a caption iff some labelled non-top-level cell names it as parent. |
| ControlStructures.GatherLastLabelWins | stpa/control_structures.py:84-93 | The caption of a parent is the cleaned value of the labelled non-top-level cell naming it that comes last in the dictionary's order (each id at its first occurrence, see `TabulateOrder`); earlier ones are overwritten. |
| ControlStructures.GatherLabels | stpa/control_structures.py:81-93 | The second loop builds the entity and caption dictionaries `Gather` describes. |
| ControlStructures.Resolve | stpa/control_structures.py:103-136 | One edge. It succeeds iff both endpoints are cells and entities and the type can be decided. The description is the caption, or `''` when there is none. ACTION makes the source the controller; FEEDBACK swaps the two. A failure is a `KeyError` or the geometry `AssertionError`. |
| ControlStructures.ResolveEdge | stpa/control_structures.py:98-138 | The body of the third loop for one edge gives the record or the exception `Resolve` describes. |
| ControlStructures.CollectLinks | stpa/control_structures.py:95-138 | The third loop gives the list of records `Links` describes, or stops at the first exception. |
| ControlStructures.Links | stpa/control_structures.py:95-138 | Specification of the third loop. `LinksErrStops` and `LinksExactlyEdges` state what it yields, and `CollectLinks` is proved to compute it. |
| ControlStructures.LinksErrStops | stpa/control_structures.py:97-138 | Once an exception is raised, the remaining cells do not matter. |
| ControlStructures.LinksExactlyEdges | stpa/control_structures.py:97-138 | The third loop completes iff every edge cell resolves. Its records are then exactly the resolved edges. |
| ControlStructures.DiagramOf | stpa/control_structures.py:66-143 | Specification of `parse_diagram`. `RecordsAreEdges`, `EntitiesAreLabelledTopLevelCells`, `ReferentialCompleteness`, `UnresolvedEndpointFails` and `NestedCellsIgnored` state its properties, and `ParseDiagram` is proved to compute it. |
| ControlStructures.ParseDiagram | stpa/control_structures.py:66-143 | The three loops compute `DiagramOf`: the set of entities and the set of records, or the first exception. |
| ControlStructures.ReferentialCompleteness | stpa/control_structures.py:118-125 | Every controller and every controlled entity of a record is in the result's entity set. |
| ControlStructures.EntitiesOfTable | stpa/control_structures.py:84-91 | The entity map's values are exactly the entities of the labelled top-level cells of the table. |
| ControlStructures.EntitiesAreLabelledTopLevelCells | stpa/control_structures.py:88-91 | The result's entities are exactly the cleaned names of the labelled top-level cells. Equal names collapse into one entity. |
| ControlStructures.RecordsOfTable | stpa/control_structures.py:97-138 | On any well-formed table, the third loop succeeds iff every edge resolves, and it yields exactly the resolved edges. |
| ControlStructures.RecordsAreEdges | stpa/control_structures.py:97-142 | The diagram parses iff every edge resolves. The records are then exactly one per edge, as `Resolve` describes. |
| ControlStructures.UnresolvedEndpointFails | stpa/control_structures.py:105-119 | An edge whose source or target is not a labelled top-level cell (or not a cell at all) makes the parse raise. |
| ControlStructures.NestedCellsIgnored | stpa/control_structures.py:72 | Only the direct children are read. Two documents whose direct cells agree parse alike, whatever is nested below them. |
| Diagrams.StructureEquals | stpa/diagrams.py:16-19 | Two structures are equal iff their names are equal. This is exactly structural equality. |
| Diagrams.Equals | stpa/diagrams.py:16-48 | `__eq__` of the three classes coincides with structural equality. Each class compares its own fields, and records of different classes are never equal. |
| Diagrams.HashConsistent | stpa/diagrams.py:13-48 | Equal records hash alike, as a Python set requires. |
| Diagrams.ActionNeverEqualsFeedback | stpa/diagrams.py:30-48 | An action and a feedback with identical fields are unequal in both directions, even though their hashes are equal. |
| DiagramParsing.IsSameHeight | stpa/diagram_parser.py:24-28 | With non-negative heights, the boxes' vertical ranges, each box with its own height, share a point. |
| DiagramParsing.SameHeightSymmetric | stpa/diagram_parser.py:24-28 | The row test does not depend on which box is the source. |
| DiagramParsing.IsSourceHigher | stpa/diagram_parser.py:31-34 | The source's `y` is strictly below the target's. `IsSourceController` and `ReversedArrowFlipsController` state how it is used. |
| DiagramParsing.IsSourceToLeft | stpa/diagram_parser.py:37-40 | The source's `x` is strictly below the target's. `IsSourceController` and `ReversedArrowFlipsController` state how it is used. |
| DiagramParsing.IsSourceController | stpa/diagram_parser.py:43-52 | An `action` prefix gives True and a `feedback` prefix gives False. Otherwise it is left-of within a row and above between rows. A missing geometry raises `AttributeError`. |
| DiagramParsing.ReversedArrowFlipsController | stpa/diagram_parser.py:24-52 | With no prefix, non-negative heights and distinct x within a row, swapping source and target flips the answer. |
| DiagramParsing.CleanText | stpa/diagram_parser.py:89-98 | The tag stripper (a parameter), then the whitespace collapse. `CollapseWords` states what the collapse yields. |
| DiagramParsing.CollapseWhitespace | stpa/diagram_parser.py:94-96 | `re.sub(r'\s+', ' ', ...)` then `strip()`. `CollapseWords`, `CollapseWhitespaceNormalizes` and `CollapseIdempotent` state its properties. |
| DiagramParsing.CollapseWords | stpa/diagram_parser.py:94-96 | The collapse equals `' '.join(s.split())`: the maximal runs of non-whitespace of the text, in order, each pair separated by exactly one space. |
| DiagramParsing.CollapseWhitespaceNormalizes | stpa/diagram_parser.py:94-96 | After the collapse, no whitespace is left at either end, no two whitespace characters are adjacent, and only plain spaces remain. Every other character is kept, in order. |
| DiagramParsing.CollapseIdempotent | stpa/diagram_parser.py:94-96 | Collapsing twice is collapsing once. |
| DiagramParsing.Flatten | stpa/diagram_parser.py:80-85 | Specification of `getAllCells`. `FlattenLength`, `FlattenAppend` and `FlattenPreOrder` state its properties, and `DiagramParser.GetAllCells` is proved to compute it. |
| DiagramParsing.FlattenLength | stpa/diagram_parser.py:80-85 | The flattening holds one entry per nested `mxCell`. |
| DiagramParsing.FlattenAppend | stpa/diagram_parser.py:80-85 | Flattening distributes over concatenation of sibling lists. |
| DiagramParsing.FlattenPreOrder | stpa/diagram_parser.py:80-85 | Pre-order: each cell comes right after the cells of its earlier siblings, immediately followed by its own subtree. |
| DiagramParsing.RegisterStructure | stpa/diagram_parser.py:70-77 | Succeeds iff the id is new and the cell has a value. An id already registered raises the "already been found" `ValueError`; a missing value raises `KeyError`. |
| DiagramParsing.ResolveArrow | stpa/diagram_parser.py:55-67 | Succeeds iff the parent edge, the value and both registered endpoints are present and the geometry can be read. When the source controls, the result is `ControlAction(controlled=target, controller=source)`; otherwise `ControlFeedback(controller=target, controlled=source)`. |
| DiagramParsing.CollectKeepsKnown | stpa/diagram_parser.py:111-115 | The first loop never drops or rebinds a cell the parser already had, even when it raises. |
| DiagramParsing.CollectKeys | stpa/diagram_parser.py:111-115 | When the first loop completes, the cell map has gained exactly the flattened cells' ids. |
| DiagramParsing.CollectStepCompletes | stpa/diagram_parser.py:111-123 | A completed iteration stores the cell and appends it to at most one of the two lists. |
| DiagramParsing.CollectStores | stpa/diagram_parser.py:111-118 | Each cell is stored under its id, with its value cleaned iff the raw value is non-empty. |
| DiagramParsing.CollectSucceeds | stpa/diagram_parser.py:111-123 | The first loop completes iff the ids are pairwise distinct and new to the parser, and every labelled cell has a `parent`. |
| DiagramParsing.CollectError | stpa/diagram_parser.py:111-123 | When the first loop raises, it is at a cell all of whose predecessors were fine. That cell either repeats an id, giving the "Cell with <id> is not unique" `ValueError`, or is labelled without a `parent`, giving the `KeyError` of `'parent'`. |
| DiagramParsing.CollectGrowsByOne | stpa/diagram_parser.py:111-115 | The cell map grows by exactly one entry per cell. |
| DiagramParsing.CollectPartition | stpa/diagram_parser.py:117-123 | Only cells with a non-empty raw value are classified. Those with parent `1` become structures, all others become arrow labels, and an edge without a label cell yields nothing. |
| DiagramParsing.CollectStructuresDistinct | stpa/diagram_parser.py:111-121 | The collected structures have distinct ids, all of them known cells. |
| DiagramParsing.RegisterStepFresh | stpa/diagram_parser.py:125-127 | Registering a fresh structure binds its id and adds its element. |
| DiagramParsing.RegisterAllCompletes | stpa/diagram_parser.py:125-127 | With distinct, fresh ids, registration always completes. It leaves the cell map alone and binds exactly the structures' ids. |
| DiagramParsing.RegisterAllKeeps | stpa/diagram_parser.py:125-127 | Registration keeps every earlier binding. |
| DiagramParsing.RegisterAllBinds | stpa/diagram_parser.py:125-127 | Each structure id is bound to the structure its value names. |
| DiagramParsing.RegisterAllElements | stpa/diagram_parser.py:125-127 | Registration adds exactly one structure element per structure cell. |
| DiagramParsing.AddArrowsKeepsMaps | stpa/diagram_parser.py:129-131 | The arrows loop never changes the two maps. |
| DiagramParsing.AddArrowsSucceeds | stpa/diagram_parser.py:129-131 | The arrows loop completes iff every arrow label resolves against the two maps. |
| DiagramParsing.AddArrowsElements | stpa/diagram_parser.py:129-131 | The arrows loop adds exactly the resolved records. |
| DiagramParsing.RegistrationCompletes | stpa/diagram_parser.py:111-127 | After a completed first loop, registration cannot raise: the "already been found" `ValueError` is unreachable from `parse_file`. Every registered id is a known cell. |
| DiagramParsing.ParseFileSpec | stpa/diagram_parser.py:101-131 | Specification of `parse_file`, with the state left behind by an exception. `ParseFileOutcome`, `RegistrationCompletes` and `ParseFileKeepsValid` state its properties, and `DiagramParser.ParseFile` is proved to compute it. |
| DiagramParsing.ParseFileOutcome | stpa/diagram_parser.py:101-131 | `parse_file` completes iff the ids are fresh, every label has a parent, and every arrow resolves after all structures are registered. It then adds exactly one element per structure and one record per arrow label. |
| DiagramParsing.ParseFileKeepsValid | stpa/diagram_parser.py:101-131 | Every registered structure id remains a known cell id, whether or not `parse_file` raises. |
| DiagramParsing.DiagramParser.constructor | stpa/diagram_parser.py:10-13 | Starts with no structures, no cells and no elements. |
| DiagramParsing.DiagramParser.ParseArrow | stpa/diagram_parser.py:55-67 | `parse_arrow` returns what `ResolveArrow` describes, with the lookups in the source's order, and changes nothing. |
| DiagramParsing.DiagramParser.ParseControlStructure | stpa/diagram_parser.py:70-77 | Binds the id only on success and leaves the other attributes unchanged. |
| DiagramParsing.DiagramParser.GetAllCells | stpa/diagram_parser.py:80-85 | The recursive walk returns the pre-order flattening. |
| DiagramParsing.DiagramParser.CollectCells | stpa/diagram_parser.py:110-123 | The first loop's cell map, lists and exception are those of `Collect`. This includes the cells stored before the exception. |
| DiagramParsing.DiagramParser.RegisterStructures | stpa/diagram_parser.py:125-127 | The second loop leaves the state and outcome of `RegisterAll`. |
| DiagramParsing.DiagramParser.AddArrowElements | stpa/diagram_parser.py:129-131 | The third loop leaves the state and outcome of `AddArrows`. |
| DiagramParsing.DiagramParser.ParseFile | stpa/diagram_parser.py:101-131 | `parse_file` leaves exactly the state and outcome of `ParseFileSpec`, including partial updates before an exception, and keeps every registered structure id a known cell id. |
| Text.TrimStart | stpa/diagram_parser.py:96 | The result is a suffix, everything removed is whitespace, and the result starts with a non-whitespace character or is empty. |
| Text.TrimEnd | stpa/diagram_parser.py:96 | The result is a prefix, everything removed is whitespace, and the result ends with a non-whitespace character or is empty. |
| Text.Decimal | stpa/definitions.py:37-39 | The f-string rendering of an index is a non-empty run of decimal digits. |
| Text.DecimalRoundTrip | stpa/definitions.py:37-39 | Reading the rendering back gives the number. |
| Text.DecimalInjective | stpa/definitions.py:37-39 | Different numbers render differently. |
| Definitions.LabelOf | stpa/definitions.py:44-115 | Every label is non-empty and ends in a separator: `L-`, `H-`, `SC-` for both constraint types, or the hazard's name plus `.` for a sub-hazard. |
| Definitions.Name | stpa/definitions.py:37-39 | The label followed by the 1-based index in decimal. `NameInjective` and `NameChars` state that a name determines label and index and holds no colon, bracket or newline. |
| Definitions.NameChars | stpa/definitions.py:37-39 | A name holds only digits, separators and letters of the label constants: no colon, bracket or newline. |
| Definitions.LabelDigitsSplit | stpa/definitions.py:37-39 | A label followed by digits splits only one way. |
| Definitions.NameInjective | stpa/definitions.py:37-39 | Equal names mean the same label and the same index. |
| Definitions.LabelsOfKinds | stpa/definitions.py:44-115 | Kinds with equal class labels are the same kind, except that both constraint types share `SC-`. Two sub-hazard labels are equal iff their hazards' names are. |
| Definitions.JoinNames | stpa/definitions.py:30-31 | The names (each definition's `__repr__`) separated by `", "`. `JoinNamesPlain` states it holds no newline, `[` or colon. |
| Definitions.ReprList | stpa/definitions.py:30-31 | The `repr` of a list of definitions: the joined names in brackets. `StrLayout` and `StripLinksOfRendering` state how renderings use it. |
| Definitions.Str | stpa/definitions.py:47-111 | The five `__str__` methods. `StrLayout` states the common layout and `DefinitionBodyOfStr` states that the body text can be recovered. |
| Definitions.StrLayout | stpa/definitions.py:30-111 | Every rendering is the name, `": "` and the body text, followed by a space and the bracketed names of the links when the kind has links. |
| Definitions.NextNameIsFresh | stpa/definitions.py:24-28 | On a consistent registry, the next definition of any label gets a name nobody has. |
| Definitions.DefineKeepsConsistent | stpa/definitions.py:24-28 | Making the next definition keeps every entry stored under its own name, with an index below its label's count. |
| Definitions.Registry.constructor | stpa/definitions.py:11-12 | The empty counter and lookup, which are consistent. |
| Definitions.Registry.Define | stpa/definitions.py:24-28 | The new definition takes its label's count as index. That count goes up by one and no other count changes. The definition is stored under its name, replacing any entry of that name; on a valid registry the name is new. |
| Definitions.Registry.Get | stpa/definitions.py:16-18 | Succeeds iff the name is registered, with the stored definition, whose own name it is. Otherwise it is a `KeyError` of that name. |
| Definitions.Registry.GetAll | stpa/definitions.py:20-22 | Succeeds iff every name is registered. The result then has the same length and order as the names, each element being the lookup of its name. Otherwise it is the `KeyError` of the first missing name. |
| Synthesis.SplitJoin | stpa/synthesis.py:52-56 | Splitting a join whose parts contain no separator gives the parts back. |
| Synthesis.SplitLines | stpa/synthesis.py:35 | No piece of `splitlines()` contains a line break. |
| Synthesis.SplitLinesStep | stpa/synthesis.py:35 | A line followed by a line ending (one break character or `"\r\n"`) splits off as the first piece. |
| Synthesis.SplitLinesJoin | stpa/synthesis.py:35 | `splitlines()` undoes a join with any one line ending, when no part holds a break and the last part is not empty. |
| Synthesis.SplitLinesTerminated | stpa/synthesis.py:35 | A line ending after the last part opens no empty piece: `splitlines()` gives back exactly the parts. |
| Synthesis.Unbreak | stpa/synthesis.py:35 | `' '.join(line.splitlines())`. `UnbreakFlattens` and `UnbreakJoin` state its properties. |
| Synthesis.UnbreakFlattens | stpa/synthesis.py:35 | The flattened line holds no line break, and a line without breaks is left as it is. |
| Synthesis.UnbreakJoin | stpa/synthesis.py:35 | Lines joined by one kind of line ending, with or without a final one, come out joined by single spaces. |
| Synthesis.NumberLines | stpa/synthesis.py:33-37 | `_number_lines`. `NumberRoundTrip`, `NumberedLinesOfNumbered` and `NumberedPromptRoundTrip` state its properties. |
| Synthesis.Unnumber | stpa/synthesis.py:44-49 | The result is a suffix. It equals the line iff the line has no `digits. ` prefix, and otherwise exactly such a prefix was removed. |
| Synthesis.NumberPrefixFound | stpa/synthesis.py:44 | Any `digits. ` prefix of a line is the one the greedy scan finds. |
| Synthesis.UnnumberLines | stpa/synthesis.py:47-49 | `_unnumber_lines`. `NumberRoundTrip` states that it undoes `NumberLines`. |
| Synthesis.UnnumberNumbered | stpa/synthesis.py:33-49 | Un-numbering a numbered line gives the line back. |
| Synthesis.NumberRoundTrip | stpa/synthesis.py:33-49 | `_unnumber_lines(_number_lines(xs))` has the length of `xs`, and each element is the element of `xs` flattened as `' '.join(x.splitlines())`. |
| Synthesis.NumberedLines | stpa/synthesis.py:52-56 | Keeps exactly the lines of the form `digits. ` plus at least one character. |
| Synthesis.NumberedLinesAppend | stpa/synthesis.py:52-56 | Matches keep input order: those of two blocks of lines are the first block's followed by the second's. |
| Synthesis.NumberedLinesAll | stpa/synthesis.py:52-56 | A block in which every line is numbered is kept whole. |
| Synthesis.RawDefinitions | stpa/synthesis.py:52-56 | `_get_raw_definitions`. `RawDefinitionsOfLines` and `RawDefinitionsOfNumbered` state its properties. |
| Synthesis.RawDefinitionsOfLines | stpa/synthesis.py:55-56 | A reply made of lines gives its numbered lines, stripped, in order. |
| Synthesis.NumberedLinesOfNumbered | stpa/synthesis.py:33-56 | Each numbered one-line text matches the numbered-line pattern, is its own strip, and holds no newline. |
| Synthesis.RawDefinitionsOfNumbered | stpa/synthesis.py:33-56 | The raw definitions of a numbered list of one-line texts are exactly its lines. |
| Synthesis.NumberedPromptRoundTrip | stpa/synthesis.py:33-56 | Numbering one-line texts, joining them with newlines, extracting the raw definitions and un-numbering them gives back the texts. |
| Synthesis.NameColonFrom | stpa/synthesis.py:18 | The lazy scan finds the leftmost colon followed by whitespace on the first line, with no newline before it. When it finds none, there is no such colon. |
| Synthesis.StripName | stpa/synthesis.py:25-26 | `_get_definition_body_links` returns a suffix of its input. |
| Synthesis.NameColonFound | stpa/synthesis.py:18 | For a name free of colons and newlines, the lazy scan stops at the colon right after the name. |
| Synthesis.StripNameOfRendering | stpa/synthesis.py:18-26 | `name: rest` becomes `rest` when the name has no colon or newline and `rest` does not start with whitespace. |
| Synthesis.StripNameWithoutColon | stpa/synthesis.py:25-26 | A string without a colon is unchanged. |
| Synthesis.LinksEnd | stpa/synthesis.py:17 | `\]$` ends at a final `]`, or before a final newline. |
| Synthesis.LinksStartFrom | stpa/synthesis.py:17 | Finds the leftmost position where the links pattern matches, and none when there is no match. |
| Synthesis.StripLinks | stpa/synthesis.py:21-22 | A string whose end has no `]` is unchanged, and any change shortens the string. |
| Synthesis.StripLinksWithoutBracket | stpa/synthesis.py:21-22 | A string without `[` is unchanged. |
| Synthesis.StripLinksOfRendering | stpa/synthesis.py:17-22 | `body [names]` becomes `body` when the body has no `[` and does not end in whitespace, and the names are on one line. |
| Synthesis.JoinNamesPlain | stpa/definitions.py:30-31 | A rendered list of names holds no newline, `[` or colon. |
| Synthesis.DefinitionBody | stpa/synthesis.py:29-30 | `_get_definition_body`: the name stripped, then the links. `DefinitionBodyWithLinks` and `DefinitionBodyOfStr` state what it recovers. |
| Synthesis.DefinitionBodyWithLinks | stpa/synthesis.py:17-30 | `name: text [names]` gives `text` back when the name has no colon or newline and the text is non-empty, trimmed and free of `[`. |
| Synthesis.DefinitionBodyOfStr | stpa/synthesis.py:29-30 | `_get_definition_body` of a rendered definition of any kind gives its body text back, when that text is non-empty, trimmed and free of `[`. |

## Left out

- XML reading (`ET.parse`, `getroot()[0][0][0]`) and the `int()` parsing of geometry
  attributes are not modelled. The input is an already-parsed tree of cells with integer
  geometry. A geometry whose `x`, `y` or `height` attribute is missing or not an integer
  is not modelled.
- BeautifulSoup's tag stripping (`get_text()` and `clean_html_text`) is a parameter,
  because it is a foreign library. Only the regular-expression whitespace collapse is
  concrete.
- The `print` calls in `parse_file` are left out.
- `reset_counter()` in `DiagramParser.__init__` is left out. The method is not defined in
  any file of the repository.
- `DiagramParser.__init__` opens a file and then parses it. It is modelled as the
  constructor followed by `ParseFile` on the document's children.
- Everything in `stpa/synthesis.py` that calls OpenAI, reads images or base64-encodes
  them is left out, because it is network and foreign API code.
- `misc/table_gen.py` is not part of this model. It formats tables with pandas and
  pylatex.
- The definition example modules are not part of this model. The concrete numbering of
  chapter 2 (`L-1`…, `H-4.1`…) is not reproduced as a scenario; `Registry.Define` and the
  name lemmas state the rule that produces it.
- The duplicate record classes at `stpa/definitions.py:118-161` are not modelled
  separately. `diagrams.dfy` models the same classes.
- `DiagramParser.parse_file` rewrites each labelled cell's `value` attribute in place. The
  model stores the rewritten copy in the cell map. An `ET.Element` reachable from
  elsewhere (aliasing) is not modelled.
- `parse_file` is split into three methods (`CollectCells`, `RegisterStructures`,
  `AddArrowElements`), one per loop of the source. `ParseFile` calls them in order.
- The `match` fallback `ValueError` of `parse_diagram` (for an unknown control type) is
  unreachable with a two-valued control type, so it is not modelled.
- The definition registry is class-level state shared by every `Definition` subclass in
  the source. Here it is an explicit `Registry` object.
- Definitions.Str: requires that a type-2 constraint's `hazard` is a `Hazard`. The
  rendering reads `hazard.system` and `hazard.unsafe_condition`, which raise
  `AttributeError` for any other kind. `SubHazard` and `Hazard` links are untyped
  definitions in the model.
- Text.Lower: models `str.lower()` on ASCII letters only. Other Unicode case mappings
  are not modelled.
- Synthesis.Unnumber: `\d` is modelled as the ASCII digits, while Python's `\d` also
  matches other Unicode decimal digits. `Synthesis.NumberedLines` has the same limit.
- `_number_lines`, `_unnumber_lines` and `_get_raw_definitions` return lazy iterators.
  They are modelled as sequences, which yield the same items in the same order.
- `_number_definitions` and the other prompt builders of `stpa/synthesis.py` are left
  out. They feed the OpenAI queries.
- DiagramParsing.CollapseWhitespace: has no contract of its own. Its properties are the
  lemmas `CollapseWhitespaceNormalizes` and `CollapseIdempotent`.
- Synthesis.StripLinks: its contract does not characterise the stripped string in
  general. `StripLinksOfRendering` states the result for renderings of definitions.
- Synthesis.StripName: its contract does not characterise the stripped string in
  general. `StripNameOfRendering` states the result for renderings of definitions.
