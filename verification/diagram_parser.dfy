/**
 * Model of `stpa/diagram_parser.py`: the older, stateful reader of draw.io diagrams.
 *
 * The geometry predicates, the whitespace half of `clean_text` and the flattening of the
 * cell tree are pure functions. `DiagramParser` is a class whose three fields are the
 * parser's three instance attributes; its methods are proved against the specification
 * functions `RegisterStructure`, `ResolveArrow` and `ParseFileSpec`, about which the
 * properties the source promises are stated as lemmas.
 */
module DiagramParsing {
  import opened Wrappers
  import opened Text
  import opened DiagramCells
  import opened Diagrams

  // ---------------------------------------------------------------------------
  // Geometry
  // ---------------------------------------------------------------------------

  /**
   * `isSameHeight`: the top of either box lies within the vertical extent of the other,
   * each box measured with its own height.
   */
  function IsSameHeight(source: Geometry, target: Geometry): (r: bool)
    ensures source.height >= 0 && target.height >= 0 ==>
      (r <==> RangesMeet(source.y, source.y + source.height, target.y, target.y + target.height))
  {
    || source.y <= target.y <= source.y + source.height
    || target.y <= source.y <= target.y + target.height
  }

  /** `isSourceHigher`: the source box starts above the target box. */
  predicate IsSourceHigher(source: Geometry, target: Geometry) {
    source.y < target.y
  }

  /** `isSourceToLeft`: the source box starts left of the target box. */
  predicate IsSourceToLeft(source: Geometry, target: Geometry) {
    source.x < target.x
  }

  /** The overlap test does not depend on which box is the source. */
  lemma SameHeightSymmetric(source: Geometry, target: Geometry)
    ensures IsSameHeight(source, target) == IsSameHeight(target, source)
  {
  }

  /**
   * `isSourceController`: an explicit `action`/`feedback` caption prefix first; otherwise
   * left-to-right within a row and top-to-bottom between rows. A cell without an
   * `mxGeometry` child makes `find` return `None`, whose `.attrib` raises.
   */
  function IsSourceController(sourceCell: Cell, targetCell: Cell, arrowValue: string): (r: Result<bool, Error>)
    ensures IsActionLabel(arrowValue) ==> r == Ok(true)
    ensures !IsActionLabel(arrowValue) && IsFeedbackLabel(arrowValue) ==> r == Ok(false)
    ensures !IsActionLabel(arrowValue) && !IsFeedbackLabel(arrowValue) ==>
      && (r.Ok? <==> sourceCell.geometry.Some? && targetCell.geometry.Some?)
      && (r.Ok? ==>
            var s, t := sourceCell.geometry.value, targetCell.geometry.value;
            r.value == if IsSameHeight(s, t) then s.x < t.x else s.y < t.y)
    ensures r.Err? ==> r.error == AttributeError("attrib")
  {
    if IsActionLabel(arrowValue) then Ok(true)
    else if IsFeedbackLabel(arrowValue) then Ok(false)
    else if sourceCell.geometry.None? || targetCell.geometry.None? then Err(AttributeError("attrib"))
    else
      var s, t := sourceCell.geometry.value, targetCell.geometry.value;
      if IsSameHeight(s, t) then Ok(IsSourceToLeft(s, t)) else Ok(IsSourceHigher(s, t))
  }

  /**
   * Without a caption prefix, with non-negative heights and distinct x coordinates for boxes
   * in the same row, reversing an arrow reverses who controls whom.
   */
  lemma ReversedArrowFlipsController(sourceCell: Cell, targetCell: Cell, arrowValue: string)
    requires !IsActionLabel(arrowValue) && !IsFeedbackLabel(arrowValue)
    requires sourceCell.geometry.Some? && targetCell.geometry.Some?
    requires sourceCell.geometry.value.height >= 0 && targetCell.geometry.value.height >= 0
    requires IsSameHeight(sourceCell.geometry.value, targetCell.geometry.value) ==>
      sourceCell.geometry.value.x != targetCell.geometry.value.x
    ensures IsSourceController(sourceCell, targetCell, arrowValue).Ok?
    ensures IsSourceController(targetCell, sourceCell, arrowValue)
         == Ok(!IsSourceController(sourceCell, targetCell, arrowValue).value)
  {
    SameHeightSymmetric(sourceCell.geometry.value, targetCell.geometry.value);
  }

  // ---------------------------------------------------------------------------
  // clean_text
  // ---------------------------------------------------------------------------

  /** No whitespace character other than a plain space, and never two whitespace characters in a row. */
  predicate Collapsed(s: string) {
    && (forall i | 0 <= i < |s| :: IsSpace(s[i]) ==> s[i] == ' ')
    && (forall i | 0 <= i < |s| - 1 :: !(IsSpace(s[i]) && IsSpace(s[i + 1])))
  }

  /** Neither end is a whitespace character. */
  predicate Trimmed(s: string) {
    s == [] || (!IsSpace(s[0]) && !IsSpace(s[|s| - 1]))
  }

  /** The non-whitespace characters of `s`, in order. */
  function Visible(s: string): (r: string)
    ensures |r| <= |s|
    decreases |s|
  {
    if s == [] then [] else (if IsSpace(s[0]) then [] else [s[0]]) + Visible(s[1..])
  }

  lemma {:induction false} VisibleAppend(a: string, b: string)
    ensures Visible(a + b) == Visible(a) + Visible(b)
    decreases |a|
  {
    if a != [] {
      assert (a + b)[0] == a[0];
      assert (a + b)[1..] == a[1..] + b;
      VisibleAppend(a[1..], b);
    } else {
      assert a + b == b;
    }
  }

  lemma {:induction false} VisibleOfSpaces(s: string)
    requires forall i | 0 <= i < |s| :: IsSpace(s[i])
    ensures Visible(s) == []
    decreases |s|
  {
    if s != [] {
      VisibleOfSpaces(s[1..]);
    }
  }

  /** `re.sub(r'\s+', ' ', s)`: every maximal whitespace run becomes a single space. */
  function Squeeze(s: string): (r: string)
    ensures Collapsed(r)
    ensures r == [] <==> s == []
    ensures s != [] ==> (IsSpace(r[0]) <==> IsSpace(s[0]))
    decreases |s|
  {
    if s == [] then []
    else if IsSpace(s[0]) then
      var rest := TrimStart(s);
      assert |rest| < |s|;
      " " + Squeeze(rest)
    else
      [s[0]] + Squeeze(s[1..])
  }

  /** `str.lstrip()` removes only whitespace. */
  lemma TrimStartKeepsVisible(s: string)
    ensures Visible(TrimStart(s)) == Visible(s)
  {
    var a := TrimStart(s);
    VisibleOfSpaces(s[..|s| - |a|]);
    VisibleAppend(s[..|s| - |a|], a);
    assert s == s[..|s| - |a|] + a;
  }

  /** `str.rstrip()` removes only whitespace. */
  lemma TrimEndKeepsVisible(s: string)
    ensures Visible(TrimEnd(s)) == Visible(s)
  {
    var b := TrimEnd(s);
    VisibleOfSpaces(s[|b|..]);
    VisibleAppend(b, s[|b|..]);
    assert s == b + s[|b|..];
  }

  /** Replacing each whitespace run by one space keeps every other character, in order. */
  lemma {:induction false} SqueezeKeepsVisible(s: string)
    ensures Visible(Squeeze(s)) == Visible(s)
    decreases |s|
  {
    if s != [] {
      if IsSpace(s[0]) {
        var rest := TrimStart(s);
        TrimStartKeepsVisible(s);
        SqueezeKeepsVisible(rest);
        VisibleAppend(" ", Squeeze(rest));
      } else {
        SqueezeKeepsVisible(s[1..]);
        VisibleAppend([s[0]], Squeeze(s[1..]));
      }
    }
  }

  /** A slice of a collapsed string is collapsed. */
  lemma CollapsedSlice(s: string, lo: int, hi: int)
    requires Collapsed(s) && 0 <= lo <= hi <= |s|
    ensures Collapsed(s[lo..hi])
  {
    var t := s[lo..hi];
    forall i | 0 <= i < |t| - 1 ensures !(IsSpace(t[i]) && IsSpace(t[i + 1])) {
      assert t[i] == s[lo + i] && t[i + 1] == s[lo + i + 1];
    }
  }

  /** The whitespace half of `clean_text`: collapse every whitespace run to one space, then strip both ends. */
  function CollapseWhitespace(s: string): string {
    Strip(Squeeze(s))
  }

  /**
   * After the collapse no whitespace is left at either end, no two whitespace characters are
   * adjacent, the only whitespace left is the plain space, and every other character is kept
   * in order.
   */
  lemma CollapseWhitespaceNormalizes(s: string)
    ensures Trimmed(CollapseWhitespace(s)) && Collapsed(CollapseWhitespace(s))
    ensures Visible(CollapseWhitespace(s)) == Visible(s)
  {
    CollapseWhitespaceShape(s);
    CollapseWhitespaceVisible(s);
  }

  lemma CollapseWhitespaceShape(s: string)
    ensures Trimmed(CollapseWhitespace(s)) && Collapsed(CollapseWhitespace(s))
  {
    StripEnds(Squeeze(s));
    StripCollapsed(Squeeze(s));
  }

  /** A stripped string has no whitespace at either end. */
  lemma StripEnds(x: string)
    ensures Trimmed(Strip(x))
  {
    var a := TrimStart(x);
    var r := TrimEnd(a);
    assert r != [] ==> r[0] == a[0];
  }

  /** Stripping a collapsed string leaves it collapsed. */
  lemma StripCollapsed(x: string)
    requires Collapsed(x)
    ensures Collapsed(Strip(x))
  {
    var a := TrimStart(x);
    CollapsedSlice(x, |x| - |a|, |x|);
    assert a == x[|x| - |a|..|x|];
    var r := TrimEnd(a);
    CollapsedSlice(a, 0, |r|);
    assert r == a[0..|r|];
  }

  lemma CollapseWhitespaceVisible(s: string)
    ensures Visible(CollapseWhitespace(s)) == Visible(s)
  {
    var squeezed := Squeeze(s);
    SqueezeKeepsVisible(s);
    TrimStartKeepsVisible(squeezed);
    TrimEndKeepsVisible(TrimStart(squeezed));
  }

  /** `clean_text`: `stripTags` stands for BeautifulSoup's `get_text()`. */
  function CleanText(stripTags: string -> string, html: string): string {
    CollapseWhitespace(stripTags(html))
  }

  /** `clean_text` as a function value, to instantiate the specification of `parse_file`. */
  function CleanTextWith(stripTags: string -> string): string -> string {
    html => CleanText(stripTags, html)
  }

  /** A string that is already collapsed and trimmed is left alone. */
  lemma {:induction false} SqueezeFixes(s: string)
    requires Collapsed(s)
    ensures Squeeze(s) == s
    decreases |s|
  {
    if s != [] {
      var tail := s[1..];
      CollapsedSlice(s, 1, |s|);
      SqueezeFixes(tail);
      if IsSpace(s[0]) {
        assert tail == [] || !IsSpace(tail[0]) by {
          assert |s| > 1 ==> !IsSpace(s[1]);
        }
        assert TrimStart(tail) == tail;
        assert TrimStart(s) == tail;
        assert Squeeze(s) == " " + tail;
        assert s == [s[0]] + tail;
      } else {
        assert Squeeze(s) == [s[0]] + tail;
      }
    }
  }

  /** The whitespace collapse is idempotent. */
  lemma CollapseIdempotent(s: string)
    ensures CollapseWhitespace(CollapseWhitespace(s)) == CollapseWhitespace(s)
  {
    var r := CollapseWhitespace(s);
    CollapseWhitespaceNormalizes(s);
    SqueezeFixes(r);
    assert TrimStart(r) == r;
    assert TrimEnd(r) == r;
  }

  // ---------------------------------------------------------------------------
  // The collapse as the words of the text joined by single spaces
  // ---------------------------------------------------------------------------

  predicate NoSpace(w: string) {
    forall i | 0 <= i < |w| :: !IsSpace(w[i])
  }

  /** The length of the run of non-whitespace `t` starts with. */
  function WordLength(t: string): (k: nat)
    ensures k <= |t| && NoSpace(t[..k])
    ensures k < |t| ==> IsSpace(t[k])
    decreases |t|
  {
    if t == [] || IsSpace(t[0]) then 0
    else
      var k := 1 + WordLength(t[1..]);
      assert forall i | 1 <= i < k :: t[..k][i] == t[1..][..k - 1][i - 1];
      k
  }

  /** `str.split()` without arguments: the maximal runs of non-whitespace, in order. */
  function Words(s: string): (r: seq<string>)
    ensures forall k | 0 <= k < |r| :: r[k] != [] && NoSpace(r[k])
    decreases |s|
  {
    var t := TrimStart(s);
    if t == [] then []
    else
      var k := WordLength(t);
      assert k >= 1;
      PrependWord(t[..k], Words(t[k..]))
  }

  function PrependWord(w: string, ws: seq<string>): (r: seq<string>)
    requires w != [] && NoSpace(w)
    requires forall k | 0 <= k < |ws| :: ws[k] != [] && NoSpace(ws[k])
    ensures forall k | 0 <= k < |r| :: r[k] != [] && NoSpace(r[k])
  {
    [w] + ws
  }

  /** A word passes through the squeeze unchanged. */
  lemma {:induction false} SqueezeWord(w: string, rest: string)
    requires NoSpace(w)
    ensures Squeeze(w + rest) == w + Squeeze(rest)
    decreases |w|
  {
    if w != [] {
      var s := w + rest;
      assert s[0] == w[0];
      assert s[1..] == w[1..] + rest;
      SqueezeWord(w[1..], rest);
    } else {
      assert w + rest == rest;
    }
  }

  /** Trailing whitespace after text that ends in a visible character is trimmed away. */
  lemma {:induction false} TrimEndAppend(a: string, b: string)
    requires TrimEnd(b) != []
    ensures TrimEnd(a + b) == a + TrimEnd(b)
    decreases |b|
  {
    var s := a + b;
    assert s[|s| - 1] == b[|b| - 1];
    if IsSpace(b[|b| - 1]) {
      assert s[..|s| - 1] == a + b[..|b| - 1];
      TrimEndAppend(a, b[..|b| - 1]);
    }
  }

  /** Leading whitespace does not change the collapse. */
  lemma CollapseSkipsLeading(s: string)
    ensures CollapseWhitespace(s) == CollapseWhitespace(TrimStart(s))
  {
    var t := TrimStart(s);
    if s != [] && IsSpace(s[0]) {
      var x := Squeeze(t);
      assert Squeeze(s) == " " + x;
      TrimOneSpace(x);
      assert TrimStart(x) == x;
    }
  }

  /** The collapse of a word followed by nothing but whitespace is the word. */
  lemma CollapseLastWord(w: string, rest: string)
    requires w != [] && NoSpace(w)
    requires TrimStart(rest) == []
    ensures CollapseWhitespace(w + rest) == w
  {
    SqueezeWord(w, rest);
    var tail := Squeeze(rest);
    assert tail == [] || tail == " " by {
      if rest != [] {
        assert IsSpace(rest[0]);
        assert Squeeze(rest) == " " + Squeeze(TrimStart(rest));
      }
    }
    var x := w + tail;
    assert x[0] == w[0];
    assert TrimStart(x) == x;
    assert !IsSpace(w[|w| - 1]);
    if tail == " " {
      assert x[..|x| - 1] == w;
    }
  }

  /** The squeeze turns a leading whitespace run into one space. */
  lemma SqueezeSpaceRun(s: string)
    requires s != [] && IsSpace(s[0])
    ensures Squeeze(s) == " " + Squeeze(TrimStart(s))
  {
  }

  /** Stripping a word, one space and more text strips only that text's end. */
  lemma StripAfterWord(w: string, x: string)
    requires w != [] && NoSpace(w)
    requires x != [] && !IsSpace(x[0])
    ensures Strip(w + " " + x) == w + " " + Strip(" " + x)
  {
    assert TrimEnd(x) != [];
    var y := w + " " + x;
    assert y[0] == w[0];
    assert TrimStart(y) == y;
    TrimEndAppend(w + " ", x);
    TrimOneSpace(x);
    assert TrimStart(x) == x;
  }

  /** The collapse of a word followed by more words is the word, one space and their collapse. */
  lemma CollapseNextWord(w: string, rest: string)
    requires w != [] && NoSpace(w)
    requires rest != [] && IsSpace(rest[0]) && TrimStart(rest) != []
    ensures CollapseWhitespace(w + rest) == w + " " + CollapseWhitespace(rest)
  {
    var x := Squeeze(TrimStart(rest));
    SqueezeAfterWord(w, rest);
    SqueezeSpaceRun(rest);
    SqueezeStartsVisible(TrimStart(rest));
    StripAfterWord(w, x);
  }

  lemma SqueezeAfterWord(w: string, rest: string)
    requires NoSpace(w)
    requires rest != [] && IsSpace(rest[0])
    ensures Squeeze(w + rest) == w + " " + Squeeze(TrimStart(rest))
  {
    SqueezeWord(w, rest);
    SqueezeSpaceRun(rest);
    Associate(w, " ", Squeeze(TrimStart(rest)));
  }

  lemma SqueezeStartsVisible(r: string)
    requires r != [] && !IsSpace(r[0])
    ensures Squeeze(r) != [] && !IsSpace(Squeeze(r)[0])
  {
  }

  lemma Associate(a: string, b: string, c: string)
    ensures a + (b + c) == a + b + c
  {
  }

  /**
   * The collapse is Python's `' '.join(s.split())`: the words of the text, in order,
   * separated by exactly one space.
   */
  lemma {:induction false} CollapseWords(s: string)
    ensures CollapseWhitespace(s) == JoinWith(" ", Words(s))
    decreases |s|
  {
    var t := TrimStart(s);
    CollapseSkipsLeading(s);
    if t != [] {
      var k := WordLength(t);
      WordsStep(s);
      if TrimStart(t[k..]) != [] {
        CollapseWords(t[k..]);
      }
      CollapseWordsStep(t);
    }
  }

  /** One word of the induction: the first word, then the collapse of what follows it. */
  lemma CollapseWordsStep(t: string)
    requires t != [] && !IsSpace(t[0])
    requires var rest := t[WordLength(t)..];
      TrimStart(rest) != [] ==> CollapseWhitespace(rest) == JoinWith(" ", Words(rest))
    ensures var k := WordLength(t);
      CollapseWhitespace(t) == JoinWith(" ", [t[..k]] + Words(t[k..]))
  {
    var k := WordLength(t);
    var w, rest := t[..k], t[k..];
    SplitAt(t, k);
    JoinCons(w, Words(rest));
    if TrimStart(rest) == [] {
      assert Words(rest) == [];
      CollapseLastWord(w, rest);
    } else {
      assert Words(rest) != [];
      CollapseNextWord(w, rest);
    }
  }

  lemma SplitAt(t: string, k: nat)
    requires k <= |t|
    ensures t == t[..k] + t[k..]
  {
  }

  /** The words of a text are its first word followed by the words of what follows it. */
  lemma WordsStep(s: string)
    requires TrimStart(s) != []
    ensures var t := TrimStart(s); var k := WordLength(t);
      && k >= 1 && t[..k] != [] && NoSpace(t[..k])
      && (k < |t| ==> IsSpace(t[k]))
      && Words(s) == [t[..k]] + Words(t[k..])
      && (Words(t[k..]) == [] <==> TrimStart(t[k..]) == [])
  {
  }

  lemma JoinCons(w: string, ws: seq<string>)
    ensures JoinWith(" ", [w] + ws) == if ws == [] then w else w + " " + JoinWith(" ", ws)
  {
    assert ([w] + ws)[1..] == ws;
  }

  // ---------------------------------------------------------------------------
  // getAllCells
  // ---------------------------------------------------------------------------

  /** `getAllCells` as a value: every `mxCell` child, each followed by its own cells. */
  function Flatten(elements: seq<XmlElement>): seq<Cell>
    decreases elements
  {
    if elements == [] then [] else FlattenOne(elements[0]) + Flatten(elements[1..])
  }

  function FlattenOne(e: XmlElement): seq<Cell>
    decreases e
  {
    match e
    case MxCell(cell, children) => [cell] + Flatten(children)
    case Other(_) => []
  }

  /** The number of `mxCell` elements reachable through `mxCell` elements only. */
  function CellCount(elements: seq<XmlElement>): nat
    decreases elements
  {
    if elements == [] then 0
    else (match elements[0] case MxCell(_, children) => 1 + CellCount(children) case Other(_) => 0)
         + CellCount(elements[1..])
  }

  lemma {:induction false} FlattenAppend(a: seq<XmlElement>, b: seq<XmlElement>)
    ensures Flatten(a + b) == Flatten(a) + Flatten(b)
    decreases |a|
  {
    if a != [] {
      assert (a + b)[0] == a[0];
      assert (a + b)[1..] == a[1..] + b;
      FlattenAppend(a[1..], b);
    } else {
      assert a + b == b;
    }
  }

  /** The flattening holds one entry per nested `mxCell`. */
  lemma {:induction false} FlattenLength(elements: seq<XmlElement>)
    ensures |Flatten(elements)| == CellCount(elements)
    decreases elements
  {
    if elements != [] {
      if elements[0].MxCell? {
        FlattenLength(elements[0].children);
      }
      FlattenLength(elements[1..]);
    }
  }

  /**
   * Pre-order: an `mxCell` child appears right after the cells of the children before it,
   * immediately followed by the cells of its own subtree.
   */
  lemma FlattenPreOrder(elements: seq<XmlElement>, k: int)
    requires 0 <= k < |elements| && elements[k].MxCell?
    ensures var before, own := Flatten(elements[..k]), Flatten(elements[k].children);
      && |before| + 1 + |own| <= |Flatten(elements)|
      && Flatten(elements)[|before|] == elements[k].cell
      && Flatten(elements)[|before| + 1 .. |before| + 1 + |own|] == own
  {
    assert elements == elements[..k] + [elements[k]] + elements[k + 1..];
    FlattenAppend(elements[..k] + [elements[k]], elements[k + 1..]);
    FlattenAppend(elements[..k], [elements[k]]);
    assert Flatten([elements[k]]) == FlattenOne(elements[k]);
  }

  // ---------------------------------------------------------------------------
  // parse_controlStructure and parse_arrow
  // ---------------------------------------------------------------------------

  /**
   * `parse_controlStructure` on the map `controlStructures`: a second structure under the
   * same id raises `ValueError` (whose message reads the cell's `value`, so a cell without
   * one raises `KeyError` instead); otherwise the structure named by the cell's value.
   */
  function RegisterStructure(controlStructures: map<string, ControlStructure>, id: string, cell: Cell)
    : (r: Result<ControlStructure, Error>)
    ensures r.Ok? <==> id !in controlStructures && cell.value.Some?
    ensures r.Ok? ==> r.value == ControlStructure(cell.value.value)
    ensures id in controlStructures && cell.value.Some? ==>
      r == Err(ValueError("The Control Structure with id: " + id + " and value: " + cell.value.value
                          + " has already been found"))
    ensures cell.value.None? ==> r == Err(KeyError("value"))
  {
    if cell.value.None? then Err(KeyError("value"))
    else if id in controlStructures then
      Err(ValueError("The Control Structure with id: " + id + " and value: " + cell.value.value
                     + " has already been found"))
    else Ok(ControlStructure(cell.value.value))
  }

  /**
   * Everything `parse_arrow` needs is there: the label's parent cell (the edge), the label's
   * value, the edge's `source` and `target` attributes naming registered structures that are
   * also known cells, and a geometry decision.
   */
  predicate Resolvable(allCells: map<string, Cell>, controlStructures: map<string, ControlStructure>, cell: Cell) {
    && cell.parent.Some? && cell.parent.value in allCells
    && cell.value.Some?
    && var edge := allCells[cell.parent.value];
    && edge.source.Some? && edge.target.Some?
    && edge.source.value in controlStructures && edge.source.value in allCells
    && edge.target.value in controlStructures && edge.target.value in allCells
    && IsSourceController(allCells[edge.source.value], allCells[edge.target.value], cell.value.value).Ok?
  }

  /**
   * `parse_arrow` for the label cell `cell`, with the source's lookups in the source's order
   * (parent edge, value, then target before source). When the source box controls, a
   * `ControlAction` from source to target; otherwise a `ControlFeedback` whose controller
   * is the target.
   */
  function ResolveArrow(allCells: map<string, Cell>, controlStructures: map<string, ControlStructure>, cell: Cell)
    : (r: Result<DiagramElement, Error>)
    ensures r.Ok? <==> Resolvable(allCells, controlStructures, cell)
    ensures r.Ok? ==>
      var edge := allCells[cell.parent.value];
      var source, target := edge.source.value, edge.target.value;
      var sourceIsController := IsSourceController(allCells[source], allCells[target], cell.value.value).value;
      && (sourceIsController ==>
            r.value == ControlAction(controlStructures[target], controlStructures[source], cell.value.value))
      && (!sourceIsController ==>
            r.value == ControlFeedback(controlStructures[source], controlStructures[target], cell.value.value))
    ensures r.Ok? && IsActionLabel(cell.value.value) ==> r.value.ControlAction?
    ensures r.Ok? && !IsActionLabel(cell.value.value) && IsFeedbackLabel(cell.value.value) ==> r.value.ControlFeedback?
    ensures r.Err? ==> r.error.KeyError? || r.error == AttributeError("attrib")
  {
    if cell.parent.None? then Err(KeyError("parent"))
    else if cell.parent.value !in allCells then Err(KeyError(cell.parent.value))
    else
      var arrowCell := allCells[cell.parent.value];
      if cell.value.None? then Err(KeyError("value"))
      else
        var arrowValue := cell.value.value;
        if arrowCell.target.None? then Err(KeyError("target"))
        else if arrowCell.target.value !in controlStructures then Err(KeyError(arrowCell.target.value))
        else if arrowCell.target.value !in allCells then Err(KeyError(arrowCell.target.value))
        else
          var target, targetCell := controlStructures[arrowCell.target.value], allCells[arrowCell.target.value];
          if arrowCell.source.None? then Err(KeyError("source"))
          else if arrowCell.source.value !in controlStructures then Err(KeyError(arrowCell.source.value))
          else if arrowCell.source.value !in allCells then Err(KeyError(arrowCell.source.value))
          else
            var source, sourceCell := controlStructures[arrowCell.source.value], allCells[arrowCell.source.value];
            var sourceIsController :- IsSourceController(sourceCell, targetCell, arrowValue);
            if sourceIsController then Ok(ControlAction(target, source, arrowValue))
            else Ok(ControlFeedback(source, target, arrowValue))
  }

  // ---------------------------------------------------------------------------
  // parse_file, as a specification
  // ---------------------------------------------------------------------------

  /** The three instance attributes `_controlStructures`, `_all_cells` and `_diagram_elements`. */
  datatype ParserState = ParserState(
    controlStructures: map<string, ControlStructure>,
    allCells: map<string, Cell>,
    elements: set<DiagramElement>)

  /** The state a procedure leaves behind, and whether it completed or raised. */
  datatype Run = Run(state: ParserState, outcome: Outcome<Error>)

  /** A cell whose raw `value` attribute is present and non-empty: the only cells classified. */
  predicate HasLabel(cell: Cell) {
    cell.value.Some? && cell.value.value != ""
  }

  /** The cell after `parse_file` rewrote its `value` attribute with `clean_text`. */
  function Cleaned(cell: Cell, clean: string -> string): (r: Cell)
    requires cell.value.Some?
    ensures r.id == cell.id && r.parent == cell.parent
  {
    cell.(value := Some(clean(cell.value.value)))
  }

  /** What the first loop of `parse_file` has built: the cell map, the two lists, a raised error. */
  datatype Collected = Collected(
    allCells: map<string, Cell>,
    structures: seq<Cell>,
    arrows: seq<Cell>,
    error: Option<Error>)

  /** One iteration of the first loop of `parse_file`. */
  function CollectStep(c: Collected, cell: Cell, clean: string -> string): Collected {
    if cell.id in c.allCells then c.(error := Some(ValueError("Cell with " + cell.id + " is not unique")))
    else if !HasLabel(cell) then c.(allCells := c.allCells[cell.id := cell])
    else
      var cleaned := Cleaned(cell, clean);
      var allCells := c.allCells[cell.id := cleaned];
      if cell.parent.None? then c.(allCells := allCells, error := Some(KeyError("parent")))
      else if cell.parent.value == ROOT_PARENT then c.(allCells := allCells, structures := c.structures + [cleaned])
      else c.(allCells := allCells, arrows := c.arrows + [cleaned])
  }

  /** The first loop of `parse_file` over the flattened cells, up to the first exception. */
  function Collect(allCells: map<string, Cell>, cells: seq<Cell>, clean: string -> string): Collected
    decreases |cells|
  {
    if cells == [] then Collected(allCells, [], [], None)
    else
      var c := Collect(allCells, cells[..|cells| - 1], clean);
      if c.error.Some? then c else CollectStep(c, cells[|cells| - 1], clean)
  }

  /** The second loop of `parse_file`: register each structure and add it to the elements. */
  function RegisterAll(st: ParserState, structures: seq<Cell>): Run
    decreases |structures|
  {
    if structures == [] then Run(st, Pass)
    else
      var run := RegisterAll(st, structures[..|structures| - 1]);
      var cell := structures[|structures| - 1];
      if run.outcome.Fail? then run
      else match RegisterStructure(run.state.controlStructures, cell.id, cell)
        case Ok(s) =>
          Run(run.state.(controlStructures := run.state.controlStructures[cell.id := s],
                         elements := run.state.elements + {StructureElement(s)}), Pass)
        case Err(e) => Run(run.state, Fail(e))
  }

  /** The third loop of `parse_file`: resolve each label cell and add the record. */
  function AddArrows(st: ParserState, arrows: seq<Cell>): Run
    decreases |arrows|
  {
    if arrows == [] then Run(st, Pass)
    else
      var run := AddArrows(st, arrows[..|arrows| - 1]);
      if run.outcome.Fail? then run
      else match ResolveArrow(run.state.allCells, run.state.controlStructures, arrows[|arrows| - 1])
        case Ok(e) => Run(run.state.(elements := run.state.elements + {e}), Pass)
        case Err(e) => Run(run.state, Fail(e))
  }

  /**
   * `parse_file` from the state `st` on the children `root` of the diagram's root element:
   * the state it leaves, including the updates made before an exception, and its outcome.
   */
  function ParseFileSpec(st: ParserState, root: seq<XmlElement>, clean: string -> string): Run {
    var c := Collect(st.allCells, Flatten(root), clean);
    var afterCells := st.(allCells := c.allCells);
    if c.error.Some? then Run(afterCells, Fail(c.error.value))
    else
      var afterStructures := RegisterAll(afterCells, c.structures);
      if afterStructures.outcome.Fail? then afterStructures
      else AddArrows(afterStructures.state, c.arrows)
  }

  // ---------------------------------------------------------------------------
  // Steps of the three loops
  // ---------------------------------------------------------------------------

  lemma CollectPrefix(allCells: map<string, Cell>, cells: seq<Cell>, clean: string -> string, i: nat)
    requires i < |cells|
    ensures var c := Collect(allCells, cells[..i], clean);
      Collect(allCells, cells[..i + 1], clean) == if c.error.Some? then c else CollectStep(c, cells[i], clean)
  {
    assert cells[..i + 1][..i] == cells[..i];
  }

  lemma {:induction false} CollectErrStops(allCells: map<string, Cell>, cells: seq<Cell>, clean: string -> string, k: nat)
    requires k <= |cells|
    requires Collect(allCells, cells[..k], clean).error.Some?
    ensures Collect(allCells, cells, clean) == Collect(allCells, cells[..k], clean)
    decreases |cells| - k
  {
    if k < |cells| {
      CollectPrefix(allCells, cells, clean, k);
      CollectErrStops(allCells, cells, clean, k + 1);
    } else {
      assert cells[..k] == cells;
    }
  }

  lemma RegisterPrefix(st: ParserState, structures: seq<Cell>, i: nat)
    requires i < |structures|
    ensures var run := RegisterAll(st, structures[..i]);
      var cell := structures[i];
      RegisterAll(st, structures[..i + 1]) ==
        if run.outcome.Fail? then run
        else match RegisterStructure(run.state.controlStructures, cell.id, cell)
          case Ok(s) =>
            Run(run.state.(controlStructures := run.state.controlStructures[cell.id := s],
                           elements := run.state.elements + {StructureElement(s)}), Pass)
          case Err(e) => Run(run.state, Fail(e))
  {
    assert structures[..i + 1][..i] == structures[..i];
  }

  lemma {:induction false} RegisterErrStops(st: ParserState, structures: seq<Cell>, k: nat)
    requires k <= |structures|
    requires RegisterAll(st, structures[..k]).outcome.Fail?
    ensures RegisterAll(st, structures) == RegisterAll(st, structures[..k])
    decreases |structures| - k
  {
    if k < |structures| {
      RegisterPrefix(st, structures, k);
      RegisterErrStops(st, structures, k + 1);
    } else {
      assert structures[..k] == structures;
    }
  }

  lemma ArrowsPrefix(st: ParserState, arrows: seq<Cell>, i: nat)
    requires i < |arrows|
    ensures var run := AddArrows(st, arrows[..i]);
      AddArrows(st, arrows[..i + 1]) ==
        if run.outcome.Fail? then run
        else match ResolveArrow(run.state.allCells, run.state.controlStructures, arrows[i])
          case Ok(e) => Run(run.state.(elements := run.state.elements + {e}), Pass)
          case Err(e) => Run(run.state, Fail(e))
  {
    assert arrows[..i + 1][..i] == arrows[..i];
  }

  lemma {:induction false} ArrowsErrStops(st: ParserState, arrows: seq<Cell>, k: nat)
    requires k <= |arrows|
    requires AddArrows(st, arrows[..k]).outcome.Fail?
    ensures AddArrows(st, arrows) == AddArrows(st, arrows[..k])
    decreases |arrows| - k
  {
    if k < |arrows| {
      ArrowsPrefix(st, arrows, k);
      ArrowsErrStops(st, arrows, k + 1);
    } else {
      assert arrows[..k] == arrows;
    }
  }

  // ---------------------------------------------------------------------------
  // Properties of parse_file
  // ---------------------------------------------------------------------------

  /** The ids of a list of cells. */
  function Ids(cells: seq<Cell>): set<string> {
    set i | 0 <= i < |cells| :: cells[i].id
  }

  predicate DistinctIds(cells: seq<Cell>) {
    forall i, j | 0 <= i < j < |cells| :: cells[i].id != cells[j].id
  }

  /** What the first loop stores for a cell: the cell, its value cleaned when it has a label. */
  function Stored(cell: Cell, clean: string -> string): Cell {
    if HasLabel(cell) then Cleaned(cell, clean) else cell
  }

  lemma IdsOfPrefix(cells: seq<Cell>)
    requires cells != []
    ensures Ids(cells) == Ids(cells[..|cells| - 1]) + {cells[|cells| - 1].id}
  {
    var prefix := cells[..|cells| - 1];
    forall id | id in Ids(cells) ensures id in Ids(prefix) + {cells[|cells| - 1].id} {
      var i :| 0 <= i < |cells| && cells[i].id == id;
      if i < |prefix| {
        assert prefix[i].id == id;
      }
    }
    forall id | id in Ids(prefix) ensures id in Ids(cells) {
      var i :| 0 <= i < |prefix| && prefix[i].id == id;
      assert cells[i].id == id;
    }
  }

  /** The first loop never drops or rebinds an entry the parser already had, even when it raises. */
  lemma {:induction false} CollectKeepsKnown(known: map<string, Cell>, cells: seq<Cell>, clean: string -> string)
    ensures forall id | id in known ::
      id in Collect(known, cells, clean).allCells && Collect(known, cells, clean).allCells[id] == known[id]
    decreases |cells|
  {
    if cells != [] {
      CollectKeepsKnown(known, cells[..|cells| - 1], clean);
    }
  }

  /** When the first loop completes, the cell map gained exactly the flattened cells' ids. */
  lemma {:induction false} CollectKeys(known: map<string, Cell>, cells: seq<Cell>, clean: string -> string)
    ensures Collect(known, cells, clean).error.None? ==>
      Collect(known, cells, clean).allCells.Keys == known.Keys + Ids(cells)
    decreases |cells|
  {
    if cells != [] {
      CollectKeys(known, cells[..|cells| - 1], clean);
      IdsOfPrefix(cells);
    }
  }

  /** A completed iteration of the first loop stores the new cell and appends it to at most one list. */
  lemma CollectStepCompletes(c: Collected, cell: Cell, clean: string -> string)
    requires c.error.None? && CollectStep(c, cell, clean).error.None?
    ensures var c' := CollectStep(c, cell, clean);
      && cell.id !in c.allCells
      && c'.allCells == c.allCells[cell.id := Stored(cell, clean)]
      && (HasLabel(cell) ==> cell.parent.Some?)
      && c'.structures == c.structures + (if HasLabel(cell) && cell.parent.value == ROOT_PARENT then [Cleaned(cell, clean)] else [])
      && c'.arrows == c.arrows + (if HasLabel(cell) && cell.parent.value != ROOT_PARENT then [Cleaned(cell, clean)] else [])
  {
  }

  /** When the first loop completes, each cell is stored under its id, cleaned iff it has a label. */
  lemma {:induction false} CollectStores(known: map<string, Cell>, cells: seq<Cell>, clean: string -> string)
    ensures var c := Collect(known, cells, clean);
      c.error.None? ==> forall i | 0 <= i < |cells| ::
        cells[i].id in c.allCells && c.allCells[cells[i].id] == Stored(cells[i], clean)
    decreases |cells|
  {
    if cells != [] {
      var n := |cells| - 1;
      var prefix := cells[..n];
      var c := Collect(known, prefix, clean);
      var c' := Collect(known, cells, clean);
      if c'.error.None? {
        assert c'.error.None? ==> c.error.None?;
        CollectStores(known, prefix, clean);
        CollectStepCompletes(c, cells[n], clean);
        forall i | 0 <= i < n
          ensures cells[i].id in c'.allCells && c'.allCells[cells[i].id] == Stored(cells[i], clean)
        {
          assert prefix[i] == cells[i];
        }
      }
    }
  }

  /** All the cell ids are pairwise distinct and none is already known to the parser. */
  predicate FreshIds(known: map<string, Cell>, cells: seq<Cell>) {
    DistinctIds(cells) && forall i | 0 <= i < |cells| :: cells[i].id !in known
  }

  /** Every labelled cell has a `parent` attribute. */
  predicate LabelsHaveParents(cells: seq<Cell>) {
    forall i | 0 <= i < |cells| :: HasLabel(cells[i]) ==> cells[i].parent.Some?
  }

  lemma FreshIdsSnoc(known: map<string, Cell>, cells: seq<Cell>)
    requires cells != []
    ensures var n := |cells| - 1;
      FreshIds(known, cells) <==> FreshIds(known, cells[..n]) && cells[n].id !in known.Keys + Ids(cells[..n])
  {
    var n := |cells| - 1;
    var prefix := cells[..n];
    forall i | 0 <= i < n ensures prefix[i] == cells[i] { }
    if cells[n].id in Ids(prefix) {
      var i :| 0 <= i < n && prefix[i].id == cells[n].id;
    }
    forall i | 0 <= i < n ensures cells[i].id in Ids(prefix) {
      assert prefix[i] == cells[i];
    }
  }

  lemma LabelsHaveParentsSnoc(cells: seq<Cell>)
    requires cells != []
    ensures var n := |cells| - 1;
      LabelsHaveParents(cells) <==> LabelsHaveParents(cells[..n]) && (HasLabel(cells[n]) ==> cells[n].parent.Some?)
  {
    var n := |cells| - 1;
    forall i | 0 <= i < n ensures cells[..n][i] == cells[i] { }
  }

  /**
   * The first loop completes iff the cell ids are pairwise distinct and new to the parser,
   * and every labelled cell has a `parent` attribute.
   */
  lemma {:induction false} CollectSucceeds(known: map<string, Cell>, cells: seq<Cell>, clean: string -> string)
    ensures Collect(known, cells, clean).error.None? <==> FreshIds(known, cells) && LabelsHaveParents(cells)
    decreases |cells|
  {
    if cells != [] {
      var n := |cells| - 1;
      var prefix := cells[..n];
      CollectSucceeds(known, prefix, clean);
      FreshIdsSnoc(known, cells);
      LabelsHaveParentsSnoc(cells);
      var c := Collect(known, prefix, clean);
      if c.error.None? {
        CollectKeys(known, prefix, clean);
        if Collect(known, cells, clean).error.None? {
          CollectStepCompletes(c, cells[n], clean);
        }
      }
    }
  }

  /**
   * The first loop stops at cell `i` with exception `e`: every earlier cell was fine, and
   * cell `i` repeats an id (the "is not unique" `ValueError`) or is labelled without a
   * `parent` attribute (the `KeyError` of `'parent'`).
   */
  predicate CollectFailsAt(known: map<string, Cell>, cells: seq<Cell>, i: int, e: Error) {
    && 0 <= i < |cells|
    && FreshIds(known, cells[..i]) && LabelsHaveParents(cells[..i])
    && if cells[i].id in known.Keys + Ids(cells[..i])
       then e == ValueError("Cell with " + cells[i].id + " is not unique")
       else HasLabel(cells[i]) && cells[i].parent.None? && e == KeyError("parent")
  }

  /** When the first loop raises, it is at the first cell that repeats an id or lacks a parent. */
  lemma {:induction false} CollectError(known: map<string, Cell>, cells: seq<Cell>, clean: string -> string)
    ensures var e := Collect(known, cells, clean).error;
      e.Some? ==> exists i :: CollectFailsAt(known, cells, i, e.value)
    decreases |cells|
  {
    if cells != [] {
      var n := |cells| - 1;
      var prefix := cells[..n];
      var c := Collect(known, prefix, clean);
      if c.error.Some? {
        CollectError(known, prefix, clean);
        var i :| CollectFailsAt(known, prefix, i, c.error.value);
        assert prefix[..i] == cells[..i] && prefix[i] == cells[i];
        assert CollectFailsAt(known, cells, i, c.error.value);
      } else {
        CollectSucceeds(known, prefix, clean);
        CollectKeys(known, prefix, clean);
        if Collect(known, cells, clean).error.Some? {
          assert CollectFailsAt(known, cells, n, Collect(known, cells, clean).error.value);
        }
      }
    }
  }

  /** When the first loop completes, the cell map has grown by one entry per cell. */
  lemma {:induction false} CollectGrowsByOne(known: map<string, Cell>, cells: seq<Cell>, clean: string -> string)
    ensures Collect(known, cells, clean).error.None? ==> |Collect(known, cells, clean).allCells| == |known| + |cells|
    decreases |cells|
  {
    if cells != [] {
      var n := |cells| - 1;
      var c := Collect(known, cells[..n], clean);
      CollectGrowsByOne(known, cells[..n], clean);
      if Collect(known, cells, clean).error.None? {
        assert c.error.None?;
        CollectStepCompletes(c, cells[n], clean);
      }
    }
  }

  /**
   * The labelled cells are partitioned on their RAW value: those whose parent is the root
   * become structures, those with any other parent become arrow labels, each stored with
   * its cleaned value; unlabelled cells are neither.
   */
  lemma {:induction false} CollectPartition(known: map<string, Cell>, cells: seq<Cell>, clean: string -> string)
    requires Collect(known, cells, clean).error.None?
    ensures forall c :: c in Collect(known, cells, clean).structures <==>
      exists i | 0 <= i < |cells| :: HasLabel(cells[i]) && cells[i].parent == Some(ROOT_PARENT) && c == Cleaned(cells[i], clean)
    ensures forall c :: c in Collect(known, cells, clean).arrows <==>
      exists i | 0 <= i < |cells| :: HasLabel(cells[i]) && cells[i].parent.Some? && cells[i].parent.value != ROOT_PARENT
                                    && c == Cleaned(cells[i], clean)
  {
    CollectStructuresOf(known, cells, clean);
    CollectArrowsOf(known, cells, clean);
  }

  lemma {:induction false} CollectStructuresOf(known: map<string, Cell>, cells: seq<Cell>, clean: string -> string)
    requires Collect(known, cells, clean).error.None?
    ensures forall c :: c in Collect(known, cells, clean).structures <==>
      exists i | 0 <= i < |cells| :: HasLabel(cells[i]) && cells[i].parent == Some(ROOT_PARENT) && c == Cleaned(cells[i], clean)
    decreases |cells|
  {
    if cells != [] {
      var n := |cells| - 1;
      var prefix := cells[..n];
      CollectStructuresOf(known, prefix, clean);
      forall i | 0 <= i < n ensures prefix[i] == cells[i] { }
    }
  }

  lemma {:induction false} CollectArrowsOf(known: map<string, Cell>, cells: seq<Cell>, clean: string -> string)
    requires Collect(known, cells, clean).error.None?
    ensures forall c :: c in Collect(known, cells, clean).arrows <==>
      exists i | 0 <= i < |cells| :: HasLabel(cells[i]) && cells[i].parent.Some? && cells[i].parent.value != ROOT_PARENT
                                    && c == Cleaned(cells[i], clean)
    decreases |cells|
  {
    if cells != [] {
      var n := |cells| - 1;
      var prefix := cells[..n];
      CollectArrowsOf(known, prefix, clean);
      forall i | 0 <= i < n ensures prefix[i] == cells[i] { }
    }
  }

  /** Structure cells that carry a value, with pairwise distinct ids none of which is registered yet. */
  predicate Registrable(st: ParserState, structures: seq<Cell>) {
    && (forall i | 0 <= i < |structures| :: structures[i].value.Some?)
    && DistinctIds(structures)
    && (forall i | 0 <= i < |structures| :: structures[i].id !in st.controlStructures)
  }

  /** The structure element a structure cell becomes. */
  function ElementOf(cell: Cell): DiagramElement
    requires cell.value.Some?
  {
    StructureElement(ControlStructure(cell.value.value))
  }

  lemma RegistrableSnoc(st: ParserState, structures: seq<Cell>)
    requires structures != [] && Registrable(st, structures)
    ensures var n := |structures| - 1;
      && Registrable(st, structures[..n])
      && structures[n].id !in st.controlStructures.Keys + Ids(structures[..n])
  {
    var n := |structures| - 1;
    var prefix := structures[..n];
    forall i | 0 <= i < n ensures prefix[i] == structures[i] { }
    assert structures[n].id !in Ids(prefix) by {
      forall i | 0 <= i < n ensures prefix[i].id != structures[n].id {
        assert prefix[i] == structures[i];
      }
    }
  }

  /** One completed registration: the id is bound to the structure, which joins the elements. */
  lemma RegisterStepFresh(st: ParserState, structures: seq<Cell>)
    requires structures != []
    requires RegisterAll(st, structures[..|structures| - 1]).outcome == Pass
    requires structures[|structures| - 1].value.Some?
    requires structures[|structures| - 1].id !in RegisterAll(st, structures[..|structures| - 1]).state.controlStructures
    ensures var cell, before := structures[|structures| - 1], RegisterAll(st, structures[..|structures| - 1]).state;
      RegisterAll(st, structures) ==
        Run(before.(controlStructures := before.controlStructures[cell.id := ControlStructure(cell.value.value)],
                    elements := before.elements + {ElementOf(cell)}), Pass)
  {
  }

  /**
   * Registering structures whose ids are distinct and new always completes, leaves the cell
   * map alone and binds exactly the structures' ids in addition to the earlier ones.
   */
  lemma {:induction false} RegisterAllCompletes(st: ParserState, structures: seq<Cell>)
    requires Registrable(st, structures)
    ensures var run := RegisterAll(st, structures);
      && run.outcome == Pass
      && run.state.allCells == st.allCells
      && run.state.controlStructures.Keys == st.controlStructures.Keys + Ids(structures)
    decreases |structures|
  {
    if structures != [] {
      var n := |structures| - 1;
      RegistrableSnoc(st, structures);
      RegisterAllCompletes(st, structures[..n]);
      RegisterStepFresh(st, structures);
      IdsOfPrefix(structures);
    }
  }

  /** Registration keeps every earlier binding. */
  lemma {:induction false} RegisterAllKeeps(st: ParserState, structures: seq<Cell>)
    requires Registrable(st, structures)
    ensures var cs := RegisterAll(st, structures).state.controlStructures;
      forall id | id in st.controlStructures :: id in cs && cs[id] == st.controlStructures[id]
    decreases |structures|
  {
    if structures != [] {
      var n := |structures| - 1;
      var prefix := structures[..n];
      RegistrableSnoc(st, structures);
      RegisterAllCompletes(st, prefix);
      RegisterAllKeeps(st, prefix);
      RegisterStepFresh(st, structures);
    }
  }

  /** Each structure id is bound to the structure its cell's value names. */
  lemma {:induction false} RegisterAllBinds(st: ParserState, structures: seq<Cell>)
    requires Registrable(st, structures)
    ensures var cs := RegisterAll(st, structures).state.controlStructures;
      forall i | 0 <= i < |structures| ::
        structures[i].id in cs && cs[structures[i].id] == ControlStructure(structures[i].value.value)
    decreases |structures|
  {
    if structures != [] {
      var n := |structures| - 1;
      var prefix := structures[..n];
      RegistrableSnoc(st, structures);
      RegisterAllCompletes(st, prefix);
      RegisterAllBinds(st, prefix);
      RegisterStepFresh(st, structures);
      var before := RegisterAll(st, prefix).state.controlStructures;
      var after := RegisterAll(st, structures).state.controlStructures;
      assert after == before[structures[n].id := ControlStructure(structures[n].value.value)];
      forall i | 0 <= i < n
        ensures structures[i].id in after && after[structures[i].id] == ControlStructure(structures[i].value.value)
      {
        assert prefix[i] == structures[i];
      }
    }
  }

  /** Registration adds exactly one structure element per structure cell. */
  lemma {:induction false} RegisterAllElements(st: ParserState, structures: seq<Cell>)
    requires Registrable(st, structures)
    ensures RegisterAll(st, structures).state.elements ==
      st.elements + set i | 0 <= i < |structures| :: ElementOf(structures[i])
    decreases |structures|
  {
    if structures != [] {
      var n := |structures| - 1;
      var prefix := structures[..n];
      RegistrableSnoc(st, structures);
      RegisterAllCompletes(st, prefix);
      RegisterAllElements(st, prefix);
      RegisterStepFresh(st, structures);
      assert RegisterAll(st, structures).state.elements
          == RegisterAll(st, prefix).state.elements + {ElementOf(structures[n])};
      ElementsSnoc(structures);
    }
  }

  lemma ElementsSnoc(structures: seq<Cell>)
    requires structures != [] && forall i | 0 <= i < |structures| :: structures[i].value.Some?
    ensures var n := |structures| - 1;
      (set i | 0 <= i < |structures| :: ElementOf(structures[i]))
      == (set i | 0 <= i < n :: ElementOf(structures[..n][i])) + {ElementOf(structures[n])}
  {
    var n := |structures| - 1;
    var prefix := structures[..n];
    var added := set i | 0 <= i < |structures| :: ElementOf(structures[i]);
    var addedBefore := set i | 0 <= i < n :: ElementOf(prefix[i]);
    forall i | 0 <= i < n ensures prefix[i] == structures[i] { }
    forall e | e in added ensures e in addedBefore + {ElementOf(structures[n])} {
      var i :| 0 <= i < |structures| && e == ElementOf(structures[i]);
      if i < n {
        assert ElementOf(prefix[i]) == e;
      }
    }
  }

  /** The third loop never changes the two maps. */
  lemma {:induction false} AddArrowsKeepsMaps(st: ParserState, arrows: seq<Cell>)
    ensures AddArrows(st, arrows).state.allCells == st.allCells
    ensures AddArrows(st, arrows).state.controlStructures == st.controlStructures
    decreases |arrows|
  {
    if arrows != [] {
      AddArrowsKeepsMaps(st, arrows[..|arrows| - 1]);
    }
  }

  /** The third loop completes iff every arrow label resolves against the two maps. */
  lemma {:induction false} AddArrowsSucceeds(st: ParserState, arrows: seq<Cell>)
    ensures AddArrows(st, arrows).outcome == Pass <==>
      forall i | 0 <= i < |arrows| :: Resolvable(st.allCells, st.controlStructures, arrows[i])
    decreases |arrows|
  {
    if arrows != [] {
      var n := |arrows| - 1;
      var prefix := arrows[..n];
      AddArrowsSucceeds(st, prefix);
      AddArrowsKeepsMaps(st, prefix);
      forall i | 0 <= i < n ensures prefix[i] == arrows[i] { }
    }
  }

  /** The record an arrow label resolves to. */
  function RecordOf(st: ParserState, cell: Cell): DiagramElement
    requires Resolvable(st.allCells, st.controlStructures, cell)
  {
    ResolveArrow(st.allCells, st.controlStructures, cell).value
  }

  /** When the third loop completes, it has added exactly the resolved records. */
  lemma {:induction false} AddArrowsElements(st: ParserState, arrows: seq<Cell>)
    requires forall i | 0 <= i < |arrows| :: Resolvable(st.allCells, st.controlStructures, arrows[i])
    ensures AddArrows(st, arrows).state.elements == st.elements + set i | 0 <= i < |arrows| :: RecordOf(st, arrows[i])
    decreases |arrows|
  {
    if arrows != [] {
      var n := |arrows| - 1;
      var prefix := arrows[..n];
      forall i | 0 <= i < n ensures prefix[i] == arrows[i] { }
      AddArrowsElements(st, prefix);
      AddArrowsKeepsMaps(st, prefix);
      AddArrowsSucceeds(st, prefix);
      assert AddArrows(st, arrows).state.elements == AddArrows(st, prefix).state.elements + {RecordOf(st, arrows[n])};
      RecordsSnoc(st, arrows);
    }
  }

  lemma RecordsSnoc(st: ParserState, arrows: seq<Cell>)
    requires arrows != [] && forall i | 0 <= i < |arrows| :: Resolvable(st.allCells, st.controlStructures, arrows[i])
    ensures var n := |arrows| - 1;
      (set i | 0 <= i < |arrows| :: RecordOf(st, arrows[i]))
      == (set i | 0 <= i < n :: RecordOf(st, arrows[..n][i])) + {RecordOf(st, arrows[n])}
  {
    var n := |arrows| - 1;
    var prefix := arrows[..n];
    var added := set i | 0 <= i < |arrows| :: RecordOf(st, arrows[i]);
    var addedBefore := set i | 0 <= i < n :: RecordOf(st, prefix[i]);
    forall i | 0 <= i < n ensures prefix[i] == arrows[i] { }
    forall e | e in added ensures e in addedBefore + {RecordOf(st, arrows[n])} {
      var i :| 0 <= i < |arrows| && e == RecordOf(st, arrows[i]);
      if i < n {
        assert RecordOf(st, prefix[i]) == e;
      }
    }
  }

  /** When the first loop completes, the structure cells have distinct ids, all of them in the cell map. */
  lemma {:induction false} CollectStructuresDistinct(known: map<string, Cell>, cells: seq<Cell>, clean: string -> string)
    ensures var c := Collect(known, cells, clean);
      c.error.None? ==>
        && DistinctIds(c.structures)
        && (forall k | 0 <= k < |c.structures| :: c.structures[k].id in c.allCells)
    decreases |cells|
  {
    if cells != [] {
      var n := |cells| - 1;
      var c := Collect(known, cells[..n], clean);
      if Collect(known, cells, clean).error.None? {
        assert c.error.None?;
        CollectStructuresDistinct(known, cells[..n], clean);
        CollectStepCompletes(c, cells[n], clean);
      }
    }
  }

  /** The parser's state after the first two loops of `parse_file`, when the first completes. */
  function Registered(st: ParserState, root: seq<XmlElement>, clean: string -> string): ParserState {
    var c := Collect(st.allCells, Flatten(root), clean);
    RegisterAll(st.(allCells := c.allCells), c.structures).state
  }

  /**
   * On a valid parser, once every cell is recorded the registration of the structures
   * cannot raise: the "already been found" error is unreachable from `parse_file`. All the
   * structures are registered, and every registered id is a known cell, before any arrow
   * is parsed.
   */
  lemma RegistrationCompletes(st: ParserState, root: seq<XmlElement>, clean: string -> string)
    requires st.controlStructures.Keys <= st.allCells.Keys
    requires Collect(st.allCells, Flatten(root), clean).error.None?
    ensures var c := Collect(st.allCells, Flatten(root), clean);
      var run := RegisterAll(st.(allCells := c.allCells), c.structures);
      && run.outcome == Pass
      && run.state.allCells == c.allCells
      && run.state.controlStructures.Keys == st.controlStructures.Keys + Ids(c.structures)
      && run.state.controlStructures.Keys <= c.allCells.Keys
  {
    var cells := Flatten(root);
    var c := Collect(st.allCells, cells, clean);
    var st1 := st.(allCells := c.allCells);
    CollectSucceeds(st.allCells, cells, clean);
    CollectPartition(st.allCells, cells, clean);
    CollectStructuresDistinct(st.allCells, cells, clean);
    CollectKeepsKnown(st.allCells, cells, clean);
    forall k | 0 <= k < |c.structures|
      ensures c.structures[k].value.Some? && c.structures[k].id !in st.controlStructures
    {
      assert c.structures[k] in c.structures;
      var i :| 0 <= i < |cells| && HasLabel(cells[i]) && cells[i].parent == Some(ROOT_PARENT)
               && c.structures[k] == Cleaned(cells[i], clean);
    }
    assert Registrable(st1, c.structures);
    RegisterAllCompletes(st1, c.structures);
  }

  /**
   * On a valid parser, `parse_file` completes iff every cell id is new and unique, every
   * labelled cell has a parent, and every arrow label resolves against the cell map and the
   * FULL structure map. Then the elements gained are one structure per structure cell and
   * one record per arrow label, so an edge without a label cell yields nothing.
   */
  lemma ParseFileOutcome(st: ParserState, root: seq<XmlElement>, clean: string -> string)
    requires st.controlStructures.Keys <= st.allCells.Keys
    ensures var cells := Flatten(root);
      var c := Collect(st.allCells, cells, clean);
      var reg := Registered(st, root, clean);
      ParseFileSpec(st, root, clean).outcome == Pass <==>
        && FreshIds(st.allCells, cells) && LabelsHaveParents(cells)
        && forall k | 0 <= k < |c.arrows| :: Resolvable(reg.allCells, reg.controlStructures, c.arrows[k])
    ensures var c := Collect(st.allCells, Flatten(root), clean);
      var reg := Registered(st, root, clean);
      ParseFileSpec(st, root, clean).outcome == Pass ==>
        && (forall k | 0 <= k < |c.structures| :: c.structures[k].value.Some?)
        && ParseFileSpec(st, root, clean).state.elements ==
          st.elements
          + (set k | 0 <= k < |c.structures| :: ElementOf(c.structures[k]))
          + (set k | 0 <= k < |c.arrows| :: RecordOf(reg, c.arrows[k]))
  {
    var cells := Flatten(root);
    var c := Collect(st.allCells, cells, clean);
    CollectSucceeds(st.allCells, cells, clean);
    if c.error.None? {
      var st1 := st.(allCells := c.allCells);
      RegistrationCompletes(st, root, clean);
      var reg := Registered(st, root, clean);
      AddArrowsSucceeds(reg, c.arrows);
      CollectPartition(st.allCells, cells, clean);
      CollectStructuresDistinct(st.allCells, cells, clean);
      CollectKeepsKnown(st.allCells, cells, clean);
      forall k | 0 <= k < |c.structures|
        ensures c.structures[k].value.Some? && c.structures[k].id !in st1.controlStructures
      {
        assert c.structures[k] in c.structures;
        var i :| 0 <= i < |cells| && HasLabel(cells[i]) && cells[i].parent == Some(ROOT_PARENT)
                 && c.structures[k] == Cleaned(cells[i], clean);
      }
      RegisterAllElements(st1, c.structures);
      if ParseFileSpec(st, root, clean).outcome == Pass {
        AddArrowsElements(reg, c.arrows);
      }
    }
  }

  /** `parse_file` keeps every registered structure id a known cell id, whether or not it raises. */
  lemma ParseFileKeepsValid(st: ParserState, root: seq<XmlElement>, clean: string -> string)
    requires st.controlStructures.Keys <= st.allCells.Keys
    ensures var after := ParseFileSpec(st, root, clean).state;
      after.controlStructures.Keys <= after.allCells.Keys
  {
    var cells := Flatten(root);
    var c := Collect(st.allCells, cells, clean);
    CollectKeepsKnown(st.allCells, cells, clean);
    if c.error.None? {
      RegistrationCompletes(st, root, clean);
      AddArrowsKeepsMaps(Registered(st, root, clean), c.arrows);
    }
  }

  // ---------------------------------------------------------------------------
  // The parser object
  // ---------------------------------------------------------------------------

  /**
   * A `DiagramParser`. Python's `__init__(filename)` is the constructor followed by
   * `ParseFile` on the document's cells.
   */
  class DiagramParser {
    var controlStructures: map<string, ControlStructure>
    var allCells: map<string, Cell>
    var diagramElements: set<DiagramElement>

    /** The three attributes as one value. */
    function State(): ParserState
      reads this
    {
      ParserState(controlStructures, allCells, diagramElements)
    }

    /** Every registered structure id is also a known cell id. */
    predicate Valid()
      reads this
    {
      controlStructures.Keys <= allCells.Keys
    }

    constructor ()
      ensures State() == ParserState(map[], map[], {})
      ensures Valid()
    {
      controlStructures := map[];
      allCells := map[];
      diagramElements := {};
    }

    /** `get_elements`. */
    function GetElements(): set<DiagramElement>
      reads this
    {
      diagramElements
    }

    /** `parse_arrow`: reads the two maps, changes nothing. */
    method ParseArrow(cell: Cell) returns (r: Result<DiagramElement, Error>)
      ensures r == ResolveArrow(allCells, controlStructures, cell)
    {
      var parent := cell.parent;
      if parent.None? || parent.value !in allCells {
        return if parent.None? then Err(KeyError("parent")) else Err(KeyError(parent.value));
      }
      var arrowCell := allCells[parent.value];
      if cell.value.None? {
        return Err(KeyError("value"));
      }
      var arrowValue := cell.value.value;
      if arrowCell.target.None? {
        return Err(KeyError("target"));
      }
      var targetId := arrowCell.target.value;
      if targetId !in controlStructures || targetId !in allCells {
        return Err(KeyError(targetId));
      }
      var target, targetCell := controlStructures[targetId], allCells[targetId];
      if arrowCell.source.None? {
        return Err(KeyError("source"));
      }
      var sourceId := arrowCell.source.value;
      if sourceId !in controlStructures || sourceId !in allCells {
        return Err(KeyError(sourceId));
      }
      var source, sourceCell := controlStructures[sourceId], allCells[sourceId];
      var isController := IsSourceController(sourceCell, targetCell, arrowValue);
      if isController.Err? {
        return Err(isController.error);
      }
      if isController.value {
        r := Ok(ControlAction(target, source, arrowValue));
      } else {
        r := Ok(ControlFeedback(source, target, arrowValue));
      }
    }

    /** `parse_controlStructure`: registers one structure under `id`, or raises. */
    method ParseControlStructure(id: string, cell: Cell) returns (r: Result<ControlStructure, Error>)
      modifies this
      ensures r == RegisterStructure(old(controlStructures), id, cell)
      ensures controlStructures == if r.Ok? then old(controlStructures)[id := r.value] else old(controlStructures)
      ensures allCells == old(allCells) && diagramElements == old(diagramElements)
    {
      if id in controlStructures {
        if cell.value.None? {
          return Err(KeyError("value"));
        }
        return Err(ValueError("The Control Structure with id: " + id + " and value: " + cell.value.value
                              + " has already been found"));
      }
      if cell.value.None? {
        return Err(KeyError("value"));
      }
      var strct := ControlStructure(cell.value.value);
      controlStructures := controlStructures[id := strct];
      r := Ok(strct);
    }

    /** `getAllCells`: each `mxCell` child, then recursively the cells below it. */
    method GetAllCells(elements: seq<XmlElement>) returns (cells: seq<Cell>)
      ensures cells == Flatten(elements)
      decreases elements
    {
      cells := [];
      for i := 0 to |elements|
        invariant cells == Flatten(elements[..i])
      {
        assert elements[..i + 1] == elements[..i] + [elements[i]];
        FlattenAppend(elements[..i], [elements[i]]);
        if elements[i].MxCell? {
          cells := cells + [elements[i].cell];
          var below := GetAllCells(elements[i].children);
          cells := cells + below;
        }
      }
      assert elements[..|elements|] == elements;
    }

    /**
     * The first loop of `parse_file`: records every cell under its id, rewrites each labelled
     * cell's value with `clean_text`, and sorts the labelled cells into structures and arrows.
     */
    method CollectCells(cells: seq<Cell>, stripTags: string -> string)
      returns (structures: seq<Cell>, arrows: seq<Cell>, r: Outcome<Error>)
      modifies this
      ensures var c := Collect(old(allCells), cells, CleanTextWith(stripTags));
        && allCells == c.allCells
        && r == (if c.error.Some? then Fail(c.error.value) else Pass)
        && (r.Pass? ==> structures == c.structures && arrows == c.arrows)
      ensures controlStructures == old(controlStructures) && diagramElements == old(diagramElements)
    {
      ghost var clean := CleanTextWith(stripTags);
      var known := allCells;
      structures, arrows := [], [];
      for i := 0 to |cells|
        invariant Collect(old(allCells), cells[..i], clean) == Collected(known, structures, arrows, None)
        invariant State() == old(State())
      {
        CollectPrefix(old(allCells), cells, clean, i);
        var cell := cells[i];
        var id := cell.id;
        if id in known {
          allCells := known;
          r := Fail(ValueError("Cell with " + id + " is not unique"));
          CollectErrStops(old(allCells), cells, clean, i + 1);
          return;
        }
        if HasLabel(cell) {
          // The dictionary holds the element whose `value` attribute is rewritten in place.
          cell := cell.(value := Some(CleanText(stripTags, cell.value.value)));
          known := known[id := cell];
          if cell.parent.None? {
            allCells := known;
            r := Fail(KeyError("parent"));
            CollectErrStops(old(allCells), cells, clean, i + 1);
            return;
          }
          if cell.parent.value == ROOT_PARENT {
            structures := structures + [cell];
          } else {
            arrows := arrows + [cell];
          }
        } else {
          known := known[id := cell];
        }
      }
      assert cells[..|cells|] == cells;
      allCells := known;
      r := Pass;
    }

    /** The second loop of `parse_file`: registers every structure and adds it to the elements. */
    method RegisterStructures(structures: seq<Cell>) returns (r: Outcome<Error>)
      modifies this
      ensures Run(State(), r) == RegisterAll(old(State()), structures)
    {
      ghost var st := State();
      for i := 0 to |structures|
        invariant RegisterAll(st, structures[..i]) == Run(State(), Pass)
      {
        RegisterPrefix(st, structures, i);
        var cell := structures[i];
        var strct := ParseControlStructure(cell.id, cell);
        if strct.Err? {
          r := Fail(strct.error);
          RegisterErrStops(st, structures, i + 1);
          return;
        }
        diagramElements := diagramElements + {StructureElement(strct.value)};
      }
      assert structures[..|structures|] == structures;
      r := Pass;
    }

    /** The third loop of `parse_file`: parses every arrow label and adds its record. */
    method AddArrowElements(arrows: seq<Cell>) returns (r: Outcome<Error>)
      modifies this
      ensures Run(State(), r) == AddArrows(old(State()), arrows)
    {
      ghost var st := State();
      for i := 0 to |arrows|
        invariant AddArrows(st, arrows[..i]) == Run(State(), Pass)
      {
        ArrowsPrefix(st, arrows, i);
        var element := ParseArrow(arrows[i]);
        if element.Err? {
          r := Fail(element.error);
          ArrowsErrStops(st, arrows, i + 1);
          return;
        }
        diagramElements := diagramElements + {element.value};
      }
      assert arrows[..|arrows|] == arrows;
      r := Pass;
    }

    /**
     * `parse_file` on the children `root` of the diagram's root element, with `stripTags`
     * standing for BeautifulSoup's `get_text()` inside `clean_text`. The state it leaves,
     * including what was recorded before an exception, is that of `ParseFileSpec`.
     */
    method ParseFile(root: seq<XmlElement>, stripTags: string -> string) returns (r: Outcome<Error>)
      modifies this
      ensures Run(State(), r) == ParseFileSpec(old(State()), root, CleanTextWith(stripTags))
      ensures old(Valid()) ==> Valid()
    {
      if Valid() {
        ParseFileKeepsValid(State(), root, CleanTextWith(stripTags));
      }
      var cells := GetAllCells(root);
      var structures, arrows;
      structures, arrows, r := CollectCells(cells, stripTags);
      if r.Fail? {
        return;
      }
      r := RegisterStructures(structures);
      if r.Fail? {
        return;
      }
      r := AddArrowElements(arrows);
    }
  }
}
