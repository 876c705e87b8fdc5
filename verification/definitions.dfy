/**
 * Model of `stpa/definitions.py`: the STPA definitions (losses, hazards, system-level
 * constraints and sub-hazards), their names and renderings, and the registry that numbers
 * them. In the source the registry is two class-level variables of `Definition` (a counter
 * per label and a lookup from name to definition) updated by every constructor; here they
 * are the two fields of a `Registry` object and construction is `Registry.Define`.
 */
module Definitions {
  import opened Wrappers
  import opened Text

  /** The fields each kind of definition carries besides its index. */
  datatype Body =
    | Loss(description: string)
    | Hazard(system: string, unsafeCondition: string, losses: seq<Definition>)
    | ConstraintType1(system: string, enforcementCondition: string, hazards: seq<Definition>)
    | ConstraintType2(hazard: Definition, lossMitigation: string, hazards: seq<Definition>)
    | SubHazard(hazard: Definition, description: string)

  /** A constructed definition: its fields and the index the registry gave it. */
  datatype Definition = Definition(body: Body, index: nat)

  /** The error `get` raises for a name nobody defined. */
  datatype Error = KeyError(name: string)

  /** The separators a label can end with. */
  predicate IsSeparator(c: char) {
    c == '-' || c == '.'
  }

  /**
   * The label of a kind of definition: a class constant, except for a sub-hazard, whose
   * label is its hazard's name followed by a dot. Both constraint types share `SC-`.
   */
  function LabelOf(body: Body): (r: string)
    ensures r != [] && IsSeparator(r[|r| - 1])
    decreases body, 0
  {
    match body
    case Loss(_) => "L-"
    case Hazard(_, _, _) => "H-"
    case ConstraintType1(_, _, _) => "SC-"
    case ConstraintType2(_, _, _) => "SC-"
    case SubHazard(hazard, _) => Name(hazard) + "."
  }

  /** The `name` property: the label followed by the 1-based index in decimal. */
  function Name(d: Definition): string
    decreases d, 1
  {
    LabelOf(d.body) + Decimal(d.index + 1)
  }

  /** The characters a name is built from. */
  predicate IsNameChar(c: char) {
    IsDigit(c) || IsSeparator(c) || c in "LHSC"
  }

  /** Every character of a name is a digit, a separator or a letter of a label constant. */
  lemma {:induction false} NameChars(d: Definition)
    ensures forall i | 0 <= i < |Name(d)| :: IsNameChar(Name(d)[i])
    decreases d
  {
    var lbl := LabelOf(d.body);
    var digits := Decimal(d.index + 1);
    assert Name(d) == lbl + digits;
    match d.body
    case SubHazard(hazard, _) =>
      NameChars(hazard);
      assert lbl == Name(hazard) + ".";
    case _ =>
  }

  lemma SeparatorNotDigit(a: string, x: string, b: string, y: string)
    requires b != [] && IsSeparator(b[|b| - 1]) && AllDigits(x)
    requires a + x == b + y
    ensures |b| <= |a|
  {
    assert (b + y)[|b| - 1] == b[|b| - 1];
    assert forall i | |a| <= i < |a + x| :: (a + x)[i] == x[i - |a|];
  }

  /** Splitting a string at its last separator: a label and a run of digits meet only one way. */
  lemma LabelDigitsSplit(a: string, x: string, b: string, y: string)
    requires a != [] && IsSeparator(a[|a| - 1]) && AllDigits(x)
    requires b != [] && IsSeparator(b[|b| - 1]) && AllDigits(y)
    requires a + x == b + y
    ensures a == b && x == y
  {
    if |a| != |b| {
      SeparatorNotDigit(a, x, b, y);
      SeparatorNotDigit(b, y, a, x);
    }
    assert a == (a + x)[..|a|] && b == (b + y)[..|b|];
    assert x == (a + x)[|a|..] && y == (b + y)[|b|..];
  }

  /** Distinct definitions of the same label never share a name, nor do definitions of different labels. */
  lemma NameInjective(a: Definition, b: Definition)
    requires Name(a) == Name(b)
    ensures LabelOf(a.body) == LabelOf(b.body) && a.index == b.index
  {
    LabelDigitsSplit(LabelOf(a.body), Decimal(a.index + 1), LabelOf(b.body), Decimal(b.index + 1));
    DecimalInjective(a.index + 1, b.index + 1);
  }

  /**
   * The labels of the kinds are pairwise different, except that both constraint types
   * share one, and a sub-hazard label differs from every class constant.
   */
  lemma LabelsOfKinds(b: Body, c: Body)
    ensures LabelOf(b) == LabelOf(c) && !b.SubHazard? ==>
      (b.Loss? <==> c.Loss?) && (b.Hazard? <==> c.Hazard?)
      && (b.ConstraintType1? || b.ConstraintType2? <==> c.ConstraintType1? || c.ConstraintType2?)
    ensures b.SubHazard? && c.SubHazard? ==> (LabelOf(b) == LabelOf(c) <==> Name(b.hazard) == Name(c.hazard))
  {
    if b.SubHazard? && c.SubHazard? && LabelOf(b) == LabelOf(c) {
      assert Name(b.hazard) == LabelOf(b)[..|LabelOf(b)| - 1];
    }
  }

  /** The `repr` of a list of definitions: their names, comma-separated, in brackets. */
  function ReprList(ds: seq<Definition>): string {
    "[" + JoinNames(ds) + "]"
  }

  function JoinNames(ds: seq<Definition>): string {
    if ds == [] then ""
    else if |ds| == 1 then Name(ds[0])
    else JoinNames(ds[..|ds| - 1]) + ", " + Name(ds[|ds| - 1])
  }

  /** A constraint of the second type names a hazard, whose fields its rendering reads. */
  predicate WellTyped(d: Definition) {
    d.body.ConstraintType2? ==> d.body.hazard.body.Hazard?
  }

  /** The `__str__` of each kind: the name, a colon, and the kind's own text. */
  function Str(d: Definition): (r: string)
    requires WellTyped(d)
  {
    Name(d) + ": " +
    match d.body
    case Loss(description) => description
    case Hazard(system, unsafeCondition, losses) =>
      system + " " + unsafeCondition + " " + ReprList(losses)
    case ConstraintType1(system, enforcementCondition, hazards) =>
      system + " " + enforcementCondition + " " + ReprList(hazards)
    case ConstraintType2(hazard, lossMitigation, hazards) =>
      "If " + hazard.body.system + " " + hazard.body.unsafeCondition + ", then "
      + lossMitigation + " " + ReprList(hazards)
    case SubHazard(_, description) => description
  }

  /** The text between the name and the links in a rendering. */
  function BodyText(d: Definition): string
    requires WellTyped(d)
  {
    match d.body
    case Loss(description) => description
    case Hazard(system, unsafeCondition, _) => system + " " + unsafeCondition
    case ConstraintType1(system, enforcementCondition, _) => system + " " + enforcementCondition
    case ConstraintType2(hazard, lossMitigation, _) =>
      "If " + hazard.body.system + " " + hazard.body.unsafeCondition + ", then " + lossMitigation
    case SubHazard(_, description) => description
  }

  /** The definitions a rendering lists in brackets, if it lists any. */
  function Links(d: Definition): Option<seq<Definition>> {
    match d.body
    case Loss(_) => None
    case Hazard(_, _, losses) => Some(losses)
    case ConstraintType1(_, _, hazards) => Some(hazards)
    case ConstraintType2(_, _, hazards) => Some(hazards)
    case SubHazard(_, _) => None
  }

  /** Every rendering is the name, `": "`, the body text, then a space and the links when there are any. */
  lemma StrLayout(d: Definition)
    requires WellTyped(d)
    ensures Links(d).None? ==> Str(d) == Name(d) + ": " + BodyText(d)
    ensures Links(d).Some? ==> Str(d) == Name(d) + ": " + BodyText(d) + " " + ReprList(Links(d).value)
  {
  }

  /** How many definitions of a label have been made: a missing label counts zero. */
  function Count(counter: map<string, nat>, lbl: string): nat {
    if lbl in counter then counter[lbl] else 0
  }

  /**
   * What the registry keeps true: every definition is stored under its own name, and its
   * index is below the count of its label.
   */
  predicate Consistent(counter: map<string, nat>, lookup: map<string, Definition>) {
    forall name | name in lookup ::
      Name(lookup[name]) == name && lookup[name].index < Count(counter, LabelOf(lookup[name].body))
  }

  /** On a consistent registry, the next definition of any kind gets a name nobody has. */
  lemma NextNameIsFresh(counter: map<string, nat>, lookup: map<string, Definition>, body: Body)
    requires Consistent(counter, lookup)
    ensures Name(Definition(body, Count(counter, LabelOf(body)))) !in lookup
  {
    var d := Definition(body, Count(counter, LabelOf(body)));
    if Name(d) in lookup {
      NameInjective(d, lookup[Name(d)]);
      assert false;
    }
  }

  /** Making the next definition of a label keeps the registry consistent. */
  lemma DefineKeepsConsistent(counter: map<string, nat>, lookup: map<string, Definition>, body: Body)
    requires Consistent(counter, lookup)
    ensures var lbl := LabelOf(body);
      var d := Definition(body, Count(counter, lbl));
      Consistent(counter[lbl := d.index + 1], lookup[Name(d) := d])
  {
    var lbl := LabelOf(body);
    var d := Definition(body, Count(counter, lbl));
    var counter' := counter[lbl := d.index + 1];
    forall name | name in lookup
      ensures lookup[name].index < Count(counter', LabelOf(lookup[name].body))
    {
      assert Count(counter, LabelOf(lookup[name].body)) <= Count(counter', LabelOf(lookup[name].body));
    }
  }

  /**
   * The class-level state of `Definition`: how many definitions each label has had, and
   * every definition by name.
   */
  class Registry {
    var counter: map<string, nat>
    var lookup: map<string, Definition>

    ghost predicate Valid()
      reads this
    {
      Consistent(counter, lookup)
    }

    /** The state before any definition is made. */
    constructor()
      ensures counter == map[] && lookup == map[]
      ensures Valid()
    {
      counter := map[];
      lookup := map[];
    }

    /**
     * `__post_init__`: the new definition takes the current count of its label as index,
     * that count goes up by one, no other count changes, and the definition is stored
     * under its name, replacing any earlier entry of that name. On a valid registry there
     * is none: the name is new.
     */
    method Define(body: Body) returns (d: Definition)
      modifies this
      ensures d == Definition(body, Count(old(counter), LabelOf(body)))
      ensures counter == old(counter)[LabelOf(body) := d.index + 1]
      ensures lookup == old(lookup)[Name(d) := d]
      ensures old(Valid()) ==> Valid() && Name(d) !in old(lookup)
    {
      var lbl := LabelOf(body);
      var count := Count(counter, lbl);
      d := Definition(body, count);
      if Valid() {
        NextNameIsFresh(counter, lookup, body);
        DefineKeepsConsistent(counter, lookup, body);
      }
      counter := counter[lbl := count + 1];
      lookup := lookup[Name(d) := d];
    }

    /** `get`: the definition of that name, or a `KeyError` naming it. */
    function Get(name: string): (r: Result<Definition, Error>)
      reads this
      ensures r.Ok? <==> name in lookup
      ensures r.Ok? ==> r.value == lookup[name]
      ensures r.Ok? && Valid() ==> Name(r.value) == name
      ensures r.Err? ==> r.error == KeyError(name)
    {
      if name in lookup then Ok(lookup[name]) else Err(KeyError(name))
    }

    /**
     * `get_all`: the definitions of the names, in order, or the `KeyError` of the first
     * name nobody defined.
     */
    function GetAll(names: seq<string>): (r: Result<seq<Definition>, Error>)
      reads this
      ensures r.Ok? <==> forall i | 0 <= i < |names| :: names[i] in lookup
      ensures r.Ok? ==> |r.value| == |names| && forall i | 0 <= i < |names| :: r.value[i] == lookup[names[i]]
      ensures r.Err? ==> exists i | 0 <= i < |names| ::
        && names[i] !in lookup && r.error == KeyError(names[i])
        && forall j | 0 <= j < i :: names[j] in lookup
    {
      if names == [] then Ok([])
      else
        var first :- Get(names[0]);
        var rest :- GetAll(names[1..]);
        Ok([first] + rest)
    }
  }
}
