/**
  The filter engine of `FilterComponent` (src/components/filter.component.js):
  the declarations `[field, type, modeOrOptions]`, the map of values the user
  has entered, `handleFilterChange`, which updates that map, and
  `applyFilters`, which narrows a collection of records declaration by
  declaration.

  The functions here are the specification: `Constraint` says what one
  declaration demands of a record (or that it demands nothing), `Step` is one
  narrowing step and `Apply` the whole fold. The method `ApplyFilters` follows
  the component's loop and is proved equal to `Apply`.
 */
module FilterComponent {
  import opened JsValues
  import opened Sequences

  /** The third element of a declaration: a mode name, or the options of a selection. */
  datatype ModeOrOptions = Mode(name: string) | Options(values: seq<string>)

  /** One entry `[field, type, modeOrOptions]` of the component's `filters` property. */
  datatype Declaration = Declaration(field: string, kind: string, modeOrOptions: ModeOrOptions)

  datatype StringMode = Contains | Regex | Exact
  datatype NumericMode = Eq | Gt | Gte | Lt | Lte

  /** What `applyFilters` makes of a declaration's type and mode. */
  datatype Kind = Text(stringMode: StringMode) | Numeric(numericMode: NumericMode) | Selection | Unrecognised

  /** The component's `filterValues` state: the raw text entered (or option picked) per field. */
  type ActiveValues = map<string, string>

  /**
    The branch of `applyFilters` a declaration takes. A `"selection"` declaration
    is acted on whatever its third element is; a type or a mode outside the
    recognised ones falls through every branch.
   */
  function Classify(d: Declaration): (k: Kind)
    ensures k == Selection <==> d.kind == "selection"
    ensures k.Text? ==> d.kind == "string" && d.modeOrOptions.Mode?
    ensures k.Numeric? ==> d.kind == "numeric" && d.modeOrOptions.Mode?
    ensures d.kind != "string" && d.kind != "numeric" && d.kind != "selection" ==> k == Unrecognised
  {
    if d.kind == "string" then
      if d.modeOrOptions == Mode("contains") then Text(Contains)
      else if d.modeOrOptions == Mode("regex") then Text(Regex)
      else if d.modeOrOptions == Mode("exact") then Text(Exact)
      else Unrecognised
    else if d.kind == "numeric" then
      if d.modeOrOptions == Mode("eq") then Numeric(Eq)
      else if d.modeOrOptions == Mode("gt") then Numeric(Gt)
      else if d.modeOrOptions == Mode("gte") then Numeric(Gte)
      else if d.modeOrOptions == Mode("lt") then Numeric(Lt)
      else if d.modeOrOptions == Mode("lte") then Numeric(Lte)
      else Unrecognised
    else if d.kind == "selection" then Selection
    else Unrecognised
  }

  /** The declaration format as the component's documentation comment describes it. */
  predicate Documented(d: Declaration)
  {
    || (d.kind == "string" && d.modeOrOptions in {Mode("contains"), Mode("regex"), Mode("exact")})
    || (d.kind == "numeric" && d.modeOrOptions in {Mode("gt"), Mode("gte"), Mode("lt"), Mode("lte"), Mode("eq")})
    || (d.kind == "selection" && d.modeOrOptions.Options?)
  }

  /** A field with no entry, an empty entry or the entry "all" imposes no constraint. */
  predicate IsInactive(active: ActiveValues, field: string)
    ensures !IsInactive(active, field) ==> field in active && |active[field]| > 0
    ensures field in active && active[field] == "all" ==> IsInactive(active, field)
  {
    field !in active || active[field] == "" || active[field] == "all"
  }

  /** The test an active declaration applies to each record. */
  datatype Criterion =
    | ContainsText(needle: string)                // `contains`: the lower-cased entered text
    | MatchesRegExp(test: string -> bool)         // `regex`: the compiled expression's `test`
    | EqualsText(text: string)                    // `exact` and `selection`: `item[field] === value`
    | ComparesNumber(mode: NumericMode, bound: int)  // numeric modes against `Number(value)`

  /**
    The criterion a declaration imposes under the entered values, or `None`
    when `applyFilters` leaves `filtered` as it is for it: the field is
    inactive, the type or mode is not recognised, the entered pattern does not
    compile, or the entered number is `NaN`.
   */
  function Constraint(h: Host, active: ActiveValues, d: Declaration): (c: Option<Criterion>)
    ensures c.None? <==>
      || IsInactive(active, d.field)
      || Classify(d) == Unrecognised
      || (Classify(d) == Text(Regex) && h.compileRegExp(active[d.field]).None?)
      || (Classify(d).Numeric? && h.toNumber(active[d.field]).None?)
  {
    if IsInactive(active, d.field) then None
    else
      var value := active[d.field];
      match Classify(d)
      case Text(Contains) => Some(ContainsText(h.lowerCase(value)))
      case Text(Regex) =>
        (match h.compileRegExp(value)
         case None => None
         case Some(test) => Some(MatchesRegExp(test)))
      case Text(Exact) => Some(EqualsText(value))
      case Numeric(mode) =>
        (match h.toNumber(value)
         case None => None
         case Some(num) => Some(ComparesNumber(mode, num)))
      case Selection => Some(EqualsText(value))
      case Unrecognised => None
  }

  /** `item[field].toString()` throws a TypeError when the field is missing; only `contains` calls it. */
  predicate Throws(c: Criterion, field: string, r: Record)
    ensures Throws(c, field, r) ==> FieldText(r, field) == "undefined"
    ensures !c.ContainsText? || field in r ==> !Throws(c, field, r)
  {
    c.ContainsText? && field !in r
  }

  /** The value of the predicate handed to `filtered.filter` for record `r`. */
  predicate Passes(h: Host, c: Criterion, field: string, r: Record)
    ensures field !in r ==> (Passes(h, c, field, r) <==> c.MatchesRegExp? && c.test("undefined"))
    ensures Throws(c, field, r) ==> !Passes(h, c, field, r)
  {
    match c
    case ContainsText(needle) => field in r && Includes(h.lowerCase(FieldText(r, field)), needle)
    case MatchesRegExp(test) => test(FieldText(r, field))
    case EqualsText(text) => field in r && r[field] == Str(text)
    case ComparesNumber(mode, bound) =>
      match mode
      case Eq => field in r && r[field] == Num(bound)
      case Gt => FieldNumber(h, r, field).Some? && FieldNumber(h, r, field).value > bound
      case Gte => FieldNumber(h, r, field).Some? && FieldNumber(h, r, field).value >= bound
      case Lt => FieldNumber(h, r, field).Some? && FieldNumber(h, r, field).value < bound
      case Lte => FieldNumber(h, r, field).Some? && FieldNumber(h, r, field).value <= bound
  }

  /** `filtered.filter(...)` for one criterion; no record may make the predicate throw. */
  function Narrow(h: Host, c: Criterion, field: string, recs: seq<Record>): (out: seq<Record>)
    requires forall r :: r in recs ==> !Throws(c, field, r)
    ensures IsSubsequence(out, recs)
    ensures forall r :: r in out <==> r in recs && Passes(h, c, field, r)
  {
    var p := r => Passes(h, c, field, r);
    KeepIsSubsequence(recs, p);
    KeepMembersAll(recs, p);
    Keep(recs, p)
  }

  /** Declaration `d` makes the predicate throw on record `r`. */
  predicate DeclThrows(h: Host, active: ActiveValues, d: Declaration, r: Record)
  {
    var c := Constraint(h, active, d);
    c.Some? && Throws(c.value, d.field, r)
  }

  /** Declaration `d` can be applied to `recs` without an exception. */
  predicate StepDefined(h: Host, active: ActiveValues, d: Declaration, recs: seq<Record>)
  {
    forall r :: r in recs ==> !DeclThrows(h, active, d, r)
  }

  /** One iteration of the `filters.forEach` callback: what `filtered` becomes. */
  function Step(h: Host, active: ActiveValues, d: Declaration, recs: seq<Record>): (out: seq<Record>)
    requires StepDefined(h, active, d, recs)
    ensures IsSubsequence(out, recs)
    ensures forall r :: r in out ==> r in recs
    ensures Constraint(h, active, d).None? ==> out == recs
    ensures Constraint(h, active, d).Some? ==>
      forall r :: r in out <==> r in recs && Passes(h, Constraint(h, active, d).value, d.field, r)
  {
    match Constraint(h, active, d)
    case None => SubsequenceReflexive(recs); recs
    case Some(c) => Narrow(h, c, d.field, recs)
  }

  /** No declaration in `decls` would raise on any record of `recs`. */
  predicate NoThrow(h: Host, active: ActiveValues, decls: seq<Declaration>, recs: seq<Record>)
  {
    forall d, r :: d in decls && r in recs ==> !DeclThrows(h, active, d, r)
  }

  /**
    Folding `decls` over `recs` raises no exception. It suffices that no record
    of the collection lacks a field an active `contains` declaration reads.
   */
  predicate Defined(h: Host, active: ActiveValues, decls: seq<Declaration>, recs: seq<Record>)
    ensures NoThrow(h, active, decls, recs) ==> Defined(h, active, decls, recs)
    decreases |decls|
  {
    || decls == []
    || (StepDefined(h, active, decls[0], recs) && Defined(h, active, decls[1..], Step(h, active, decls[0], recs)))
  }

  /** The value of `filtered` after the declarations `decls` have been applied to `recs` in order. */
  function Apply(h: Host, active: ActiveValues, decls: seq<Declaration>, recs: seq<Record>): (out: seq<Record>)
    requires Defined(h, active, decls, recs)
    ensures IsSubsequence(out, recs)
    ensures forall r :: r in out ==> r in recs
    decreases |decls|
  {
    if decls == [] then
      SubsequenceReflexive(recs);
      recs
    else
      var next := Step(h, active, decls[0], recs);
      var out := Apply(h, active, decls[1..], next);
      SubsequenceTransitive(out, next, recs);
      out
  }

  /**
    `applyFilters`: starting from the whole collection, each declaration in
    turn narrows `filtered`, or is skipped. The result is what
    `setFilterColection` receives.
   */
  method ApplyFilters(h: Host, colection: seq<Record>, filters: seq<Declaration>, filterValues: ActiveValues)
    returns (filtered: seq<Record>)
    requires Defined(h, filterValues, filters, colection)
    ensures filtered == Apply(h, filterValues, filters, colection)
    ensures IsSubsequence(filtered, colection)
  {
    filtered := colection;
    for i := 0 to |filters|
      invariant Defined(h, filterValues, filters[i..], filtered)
      invariant Apply(h, filterValues, filters[i..], filtered) == Apply(h, filterValues, filters, colection)
    {
      assert filters[i..][0] == filters[i] && filters[i..][1..] == filters[i + 1..];
      var Declaration(field, kind, modeOrOptions) := filters[i];
      if field !in filterValues || filterValues[field] == "" || filterValues[field] == "all" {
        continue;
      }
      var value := filterValues[field];
      if kind == "string" {
        if modeOrOptions == Mode("contains") {
          filtered := Narrow(h, ContainsText(h.lowerCase(value)), field, filtered);
        } else if modeOrOptions == Mode("regex") {
          // `new RegExp(value)` inside a try whose catch does nothing
          var compiled := h.compileRegExp(value);
          if compiled.Some? {
            filtered := Narrow(h, MatchesRegExp(compiled.value), field, filtered);
          }
        } else if modeOrOptions == Mode("exact") {
          filtered := Narrow(h, EqualsText(value), field, filtered);
        }
      } else if kind == "numeric" {
        var num := h.toNumber(value);
        if num.None? {
          continue;
        }
        if modeOrOptions == Mode("eq") {
          filtered := Narrow(h, ComparesNumber(Eq, num.value), field, filtered);
        } else if modeOrOptions == Mode("gt") {
          filtered := Narrow(h, ComparesNumber(Gt, num.value), field, filtered);
        } else if modeOrOptions == Mode("gte") {
          filtered := Narrow(h, ComparesNumber(Gte, num.value), field, filtered);
        } else if modeOrOptions == Mode("lt") {
          filtered := Narrow(h, ComparesNumber(Lt, num.value), field, filtered);
        } else if modeOrOptions == Mode("lte") {
          filtered := Narrow(h, ComparesNumber(Lte, num.value), field, filtered);
        }
      } else if kind == "selection" {
        filtered := Narrow(h, EqualsText(value), field, filtered);
      }
    }
  }

  /** `handleFilterChange(field, value)`: `{ ...prev, [field]: value }`. */
  function HandleFilterChange(prev: ActiveValues, field: string, value: string): (next: ActiveValues)
    ensures next.Keys == prev.Keys + {field}
    ensures next[field] == value
    ensures forall k :: k in prev && k != field ==> next[k] == prev[k]
  {
    prev[field := value]
  }
}
