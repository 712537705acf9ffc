/**
  What `applyFilters` and `handleFilterChange` guarantee, stated over the
  specification functions of `FilterComponent`: the result is the records of
  the collection that every active declaration admits (an AND of independent
  tests, so declaration order does not matter), skipped declarations can be
  dropped, and each kind of declaration applies the test its mode names.
 */
module FilterProperties {
  import opened JsValues
  import opened Sequences
  import opened FilterComponent

  /** Record `r` satisfies declaration `d`; a skipped declaration is satisfied by every record. */
  predicate Admits(h: Host, active: ActiveValues, d: Declaration, r: Record)
  {
    match Constraint(h, active, d)
    case None => true
    case Some(c) => Passes(h, c, d.field, r)
  }

  /** Record `r` satisfies every declaration in `decls`. */
  predicate AllAdmit(h: Host, active: ActiveValues, decls: seq<Declaration>, r: Record)
  {
    forall d :: d in decls ==> Admits(h, active, d, r)
  }

  /** One step keeps exactly the records its declaration admits. */
  lemma StepKeepsAdmitted(h: Host, active: ActiveValues, d: Declaration, recs: seq<Record>)
    requires StepDefined(h, active, d, recs)
    ensures Step(h, active, d, recs) == Keep(recs, r => Admits(h, active, d, r))
  {
    match Constraint(h, active, d)
    case None =>
      KeepAll(recs, r => Admits(h, active, d, r));
    case Some(c) =>
      KeepAgrees(recs, r => Passes(h, c, d.field, r), r => Admits(h, active, d, r));
  }

  /**
    AND composition: the result of the fold is the collection filtered once by
    the conjunction of all declarations' tests.
   */
  lemma {:induction false} ApplyKeepsAllAdmitted(h: Host, active: ActiveValues, decls: seq<Declaration>, recs: seq<Record>)
    requires Defined(h, active, decls, recs)
    ensures Apply(h, active, decls, recs) == Keep(recs, r => AllAdmit(h, active, decls, r))
    decreases |decls|
  {
    if decls == [] {
      KeepAll(recs, r => AllAdmit(h, active, decls, r));
    } else {
      var d, rest := decls[0], decls[1..];
      assert decls == [d] + rest;
      var next := Step(h, active, d, recs);
      ApplyKeepsAllAdmitted(h, active, rest, next);
      StepKeepsAdmitted(h, active, d, recs);
      forall k | 0 <= k < |recs|
        ensures AllAdmit(h, active, decls, recs[k]) == (Admits(h, active, d, recs[k]) && AllAdmit(h, active, rest, recs[k]))
      {
      }
      KeepKeep(recs, r => Admits(h, active, d, r), r => AllAdmit(h, active, rest, r), r => AllAdmit(h, active, decls, r));
    }
  }

  /** A record is in the result iff it is in the collection and every declaration admits it. */
  lemma ApplyMembers(h: Host, active: ActiveValues, decls: seq<Declaration>, recs: seq<Record>, r: Record)
    requires Defined(h, active, decls, recs)
    ensures r in Apply(h, active, decls, recs) <==> r in recs && AllAdmit(h, active, decls, r)
  {
    ApplyKeepsAllAdmitted(h, active, decls, recs);
    KeepMembers(recs, r' => AllAdmit(h, active, decls, r'), r);
  }

  /**
    The declaration order does not change the result: whenever two
    rearrangements of the declarations (repeats included) both run without an
    exception, they keep exactly the same records in the same order. Whether
    an exception is raised can depend on the order (`OrderDecidesThrowing`).
   */
  lemma OrderIrrelevant(h: Host, active: ActiveValues, decls1: seq<Declaration>, decls2: seq<Declaration>, recs: seq<Record>)
    requires forall d :: d in decls1 <==> d in decls2
    requires Defined(h, active, decls1, recs) && Defined(h, active, decls2, recs)
    ensures Apply(h, active, decls1, recs) == Apply(h, active, decls2, recs)
  {
    ApplyKeepsAllAdmitted(h, active, decls1, recs);
    ApplyKeepsAllAdmitted(h, active, decls2, recs);
    KeepAgrees(recs, r => AllAdmit(h, active, decls1, r), r => AllAdmit(h, active, decls2, r));
  }

  /** When no declaration can raise on the collection, every rearrangement runs and gives the same result. */
  lemma OrderIrrelevantWithoutThrow(h: Host, active: ActiveValues, decls1: seq<Declaration>, decls2: seq<Declaration>,
                                    recs: seq<Record>)
    requires forall d :: d in decls1 <==> d in decls2
    requires NoThrow(h, active, decls1, recs)
    ensures Defined(h, active, decls1, recs) && Defined(h, active, decls2, recs)
    ensures Apply(h, active, decls1, recs) == Apply(h, active, decls2, recs)
  {
    OrderIrrelevant(h, active, decls1, decls2, recs);
  }

  /**
    A record survives all declarations together iff it survives each of them
    applied alone: the result is the intersection of the one-declaration results.
   */
  lemma AndComposition(h: Host, active: ActiveValues, decls: seq<Declaration>, recs: seq<Record>, r: Record)
    requires NoThrow(h, active, decls, recs)
    ensures Defined(h, active, decls, recs)
    ensures forall d :: d in decls ==> Defined(h, active, [d], recs)
    ensures r in Apply(h, active, decls, recs) <==>
      r in recs && forall d :: d in decls ==> r in Apply(h, active, [d], recs)
  {
    ApplyMembers(h, active, decls, recs, r);
    forall d | d in decls
      ensures Defined(h, active, [d], recs)
      ensures r in Apply(h, active, [d], recs) <==> r in recs && Admits(h, active, d, r)
    {
      ApplyMembers(h, active, [d], recs, r);
    }
  }

  /** Applying `a` and then `b` is applying `a + b`; an exception in either is an exception in both. */
  lemma {:induction false} ApplyAppend(h: Host, active: ActiveValues, a: seq<Declaration>, b: seq<Declaration>, recs: seq<Record>)
    ensures Defined(h, active, a + b, recs) <==>
      Defined(h, active, a, recs) && Defined(h, active, b, Apply(h, active, a, recs))
    ensures Defined(h, active, a + b, recs) ==>
      Apply(h, active, a + b, recs) == Apply(h, active, b, Apply(h, active, a, recs))
    decreases |a|
  {
    if a == [] {
      assert a + b == b;
    } else {
      assert (a + b)[0] == a[0] && (a + b)[1..] == a[1..] + b;
      if StepDefined(h, active, a[0], recs) {
        ApplyAppend(h, active, a[1..], b, Step(h, active, a[0], recs));
      }
    }
  }

  /**
    A declaration that imposes no constraint (inactive field, unrecognised type
    or mode, a pattern that does not compile, a `NaN` number) can be removed
    from anywhere in the list without changing whether the fold throws or what it returns.
   */
  lemma SkippedDeclarationIsRemovable(h: Host, active: ActiveValues, pre: seq<Declaration>, d: Declaration,
                                      post: seq<Declaration>, recs: seq<Record>)
    requires Constraint(h, active, d).None?
    ensures Defined(h, active, pre + [d] + post, recs) <==> Defined(h, active, pre + post, recs)
    ensures Defined(h, active, pre + post, recs) ==>
      Apply(h, active, pre + [d] + post, recs) == Apply(h, active, pre + post, recs)
  {
    assert pre + [d] + post == pre + ([d] + post);
    ApplyAppend(h, active, pre, [d] + post, recs);
    ApplyAppend(h, active, pre, post, recs);
    if Defined(h, active, pre, recs) {
      var mid := Apply(h, active, pre, recs);
      assert ([d] + post)[0] == d && ([d] + post)[1..] == post;
      assert StepDefined(h, active, d, mid) && Step(h, active, d, mid) == mid;
    }
  }

  /**
    Malformed runtime input degrades to "no constraint": a `regex` declaration
    whose entered pattern makes `new RegExp` throw, or a numeric declaration
    whose entered text is `NaN`, behaves as if it were not in the list.
   */
  lemma MalformedInputIsIgnored(h: Host, active: ActiveValues, pre: seq<Declaration>, d: Declaration,
                                post: seq<Declaration>, recs: seq<Record>)
    requires !IsInactive(active, d.field)
    requires || (Classify(d) == Text(Regex) && h.compileRegExp(active[d.field]).None?)
             || (Classify(d).Numeric? && h.toNumber(active[d.field]).None?)
    ensures Defined(h, active, pre + [d] + post, recs) <==> Defined(h, active, pre + post, recs)
    ensures Defined(h, active, pre + post, recs) ==>
      Apply(h, active, pre + [d] + post, recs) == Apply(h, active, pre + post, recs)
  {
    SkippedDeclarationIsRemovable(h, active, pre, d, post, recs);
  }

  /** When no declaration constrains anything, the result is the whole collection, in order. */
  lemma {:induction false} InactiveIsIdentity(h: Host, active: ActiveValues, decls: seq<Declaration>, recs: seq<Record>)
    requires forall d :: d in decls ==> IsInactive(active, d.field) || Classify(d) == Unrecognised
    ensures Defined(h, active, decls, recs)
    ensures Apply(h, active, decls, recs) == recs
    decreases |decls|
  {
    if decls != [] {
      assert decls[0] in decls;
      assert forall d :: d in decls[1..] ==> d in decls;
      InactiveIsIdentity(h, active, decls[1..], recs);
    }
  }

  /** Before any value has been entered (`useState({})`), filtering returns the collection unchanged. */
  lemma InitialValuesKeepEverything(h: Host, decls: seq<Declaration>, recs: seq<Record>)
    ensures Defined(h, map[], decls, recs)
    ensures Apply(h, map[], decls, recs) == recs
  {
    InactiveIsIdentity(h, map[], decls, recs);
  }

  /**
    `contains` keeps a record iff the lower-cased text of its field contains
    the lower-cased entered value; it throws exactly when some record lacks the field.
   */
  lemma ContainsIsCaseInsensitiveSubstring(h: Host, active: ActiveValues, d: Declaration, recs: seq<Record>)
    requires Classify(d) == Text(Contains) && !IsInactive(active, d.field)
    ensures StepDefined(h, active, d, recs) <==> forall r :: r in recs ==> d.field in r
    ensures StepDefined(h, active, d, recs) ==>
      Step(h, active, d, recs) ==
      Keep(recs, r => Includes(h.lowerCase(FieldText(r, d.field)), h.lowerCase(active[d.field])))
  {
    var needle := h.lowerCase(active[d.field]);
    if StepDefined(h, active, d, recs) {
      forall k | 0 <= k < |recs|
        ensures d.field in recs[k]
      {
        assert !DeclThrows(h, active, d, recs[k]);
      }
      KeepAgrees(recs, r => Passes(h, ContainsText(needle), d.field, r),
                       r => Includes(h.lowerCase(FieldText(r, d.field)), needle));
    }
  }

  /**
    A `regex` declaration whose pattern compiles keeps the records on which the
    compiled test holds of `String(item[field])`; a missing field is tested as "undefined".
   */
  lemma RegExpTestsFieldText(h: Host, active: ActiveValues, d: Declaration, recs: seq<Record>, test: string -> bool)
    requires Classify(d) == Text(Regex) && !IsInactive(active, d.field)
    requires h.compileRegExp(active[d.field]) == Some(test)
    ensures StepDefined(h, active, d, recs)
    ensures Step(h, active, d, recs) == Keep(recs, r => test(FieldText(r, d.field)))
    ensures forall r :: r in recs && d.field !in r ==> (r in Step(h, active, d, recs) <==> test("undefined"))
  {
    KeepAgrees(recs, r => Passes(h, MatchesRegExp(test), d.field, r), r => test(FieldText(r, d.field)));
    forall r | r in recs && d.field !in r
      ensures r in Step(h, active, d, recs) <==> test("undefined")
    {
      KeepMembers(recs, r' => test(FieldText(r', d.field)), r);
    }
  }

  /**
    For an entered number `num`, each numeric mode keeps a record whose field
    holds the number `n` exactly when `n` compares to `num` as the mode says,
    and never keeps a record without the field.
   */
  lemma NumericModesCompare(h: Host, active: ActiveValues, d: Declaration, num: int, r: Record)
    requires Classify(d).Numeric? && !IsInactive(active, d.field)
    requires h.toNumber(active[d.field]) == Some(num)
    ensures d.field !in r ==> !Admits(h, active, d, r)
    ensures d.field in r && r[d.field].Num? ==>
      var n := r[d.field].n;
      && (Classify(d) == Numeric(Eq) ==> (Admits(h, active, d, r) <==> n == num))
      && (Classify(d) == Numeric(Gt) ==> (Admits(h, active, d, r) <==> n > num))
      && (Classify(d) == Numeric(Gte) ==> (Admits(h, active, d, r) <==> n >= num))
      && (Classify(d) == Numeric(Lt) ==> (Admits(h, active, d, r) <==> n < num))
      && (Classify(d) == Numeric(Lte) ==> (Admits(h, active, d, r) <==> n <= num))
  {
  }

  /**
    On a field holding text, `eq` (strict equality) never matches, while the
    relational modes compare `Number(text)`, and never match when it is `NaN`.
   */
  lemma NumericModesOnText(h: Host, active: ActiveValues, d: Declaration, num: int, r: Record, s: string)
    requires Classify(d).Numeric? && !IsInactive(active, d.field)
    requires h.toNumber(active[d.field]) == Some(num)
    requires d.field in r && r[d.field] == Str(s)
    ensures Classify(d) == Numeric(Eq) ==> !Admits(h, active, d, r)
    ensures Classify(d) != Numeric(Eq) && h.toNumber(s).None? ==> !Admits(h, active, d, r)
    ensures h.toNumber(s).Some? ==>
      var x := h.toNumber(s).value;
      && (Classify(d) == Numeric(Gt) ==> (Admits(h, active, d, r) <==> x > num))
      && (Classify(d) == Numeric(Gte) ==> (Admits(h, active, d, r) <==> x >= num))
      && (Classify(d) == Numeric(Lt) ==> (Admits(h, active, d, r) <==> x < num))
      && (Classify(d) == Numeric(Lte) ==> (Admits(h, active, d, r) <==> x <= num))
  {
  }

  /**
    The mode names a numeric declaration is written with select the comparisons
    they name: on a number field `n`, `"eq"`, `"gt"`, `"gte"`, `"lt"` and `"lte"`
    keep the record iff `n` is `==`, `>`, `>=`, `<` or `<=` the entered number.
   */
  lemma NumericModeNames(h: Host, active: ActiveValues, f: string, num: int, r: Record)
    requires !IsInactive(active, f) && h.toNumber(active[f]) == Some(num)
    requires f in r && r[f].Num?
    ensures Admits(h, active, Declaration(f, "numeric", Mode("eq")), r) <==> r[f].n == num
    ensures Admits(h, active, Declaration(f, "numeric", Mode("gt")), r) <==> r[f].n > num
    ensures Admits(h, active, Declaration(f, "numeric", Mode("gte")), r) <==> r[f].n >= num
    ensures Admits(h, active, Declaration(f, "numeric", Mode("lt")), r) <==> r[f].n < num
    ensures Admits(h, active, Declaration(f, "numeric", Mode("lte")), r) <==> r[f].n <= num
  {
  }

  /**
    The mode names a string declaration is written with select the tests they
    name: `"contains"` a case-insensitive substring test, `"regex"` the compiled
    pattern on the field's text, `"exact"` strict equality with the entered text.
   */
  lemma StringModeNames(h: Host, active: ActiveValues, f: string, r: Record)
    requires !IsInactive(active, f)
    ensures f in r ==>
      (Admits(h, active, Declaration(f, "string", Mode("contains")), r) <==>
       Includes(h.lowerCase(FieldText(r, f)), h.lowerCase(active[f])))
    ensures h.compileRegExp(active[f]).Some? ==>
      (Admits(h, active, Declaration(f, "string", Mode("regex")), r) <==>
       h.compileRegExp(active[f]).value(FieldText(r, f)))
    ensures Admits(h, active, Declaration(f, "string", Mode("exact")), r) <==> f in r && r[f] == Str(active[f])
  {
  }

  /** Only an active `contains` declaration can raise: any other declaration runs on every collection. */
  lemma OnlyContainsThrows(h: Host, active: ActiveValues, d: Declaration, recs: seq<Record>)
    requires Classify(d) != Text(Contains) || IsInactive(active, d.field)
    ensures StepDefined(h, active, d, recs)
  {
  }

  /**
    `exact` and `selection` apply the same test, strict equality of the field
    with the entered text; the option list of a selection is not consulted.
   */
  lemma SelectionIsExactMatch(h: Host, active: ActiveValues, field: string, options: ModeOrOptions,
                              other: ModeOrOptions, recs: seq<Record>)
    ensures var sel := Declaration(field, "selection", options);
      && StepDefined(h, active, sel, recs)
      && Step(h, active, sel, recs) == Step(h, active, Declaration(field, "string", Mode("exact")), recs)
      && Step(h, active, sel, recs) == Step(h, active, Declaration(field, "selection", other), recs)
      && (!IsInactive(active, field) ==>
            forall r :: r in recs ==>
              (r in Step(h, active, sel, recs) <==> field in r && r[field] == Str(active[field])))
  {
    var sel := Declaration(field, "selection", options);
    if !IsInactive(active, field) {
      forall r | r in recs
        ensures r in Step(h, active, sel, recs) <==> field in r && r[field] == Str(active[field])
      {
        KeepMembers(recs, r' => Passes(h, EqualsText(active[field]), field, r'), r);
      }
    }
  }

  /** After `handleFilterChange(field, value)`, declarations on other fields act exactly as before. */
  lemma {:induction false} ChangeLeavesOtherFieldsAlone(h: Host, prev: ActiveValues, field: string, value: string,
                                                        decls: seq<Declaration>, recs: seq<Record>)
    requires forall d :: d in decls ==> d.field != field
    ensures Defined(h, HandleFilterChange(prev, field, value), decls, recs) <==> Defined(h, prev, decls, recs)
    ensures Defined(h, prev, decls, recs) ==>
      Apply(h, HandleFilterChange(prev, field, value), decls, recs) == Apply(h, prev, decls, recs)
    decreases |decls|
  {
    var next := HandleFilterChange(prev, field, value);
    if decls != [] {
      var d := decls[0];
      assert d in decls;
      assert IsInactive(next, d.field) == IsInactive(prev, d.field);
      assert Constraint(h, next, d) == Constraint(h, prev, d) by {
        if !IsInactive(prev, d.field) {
          assert next[d.field] == prev[d.field];
        }
      }
      assert forall e :: e in decls[1..] ==> e in decls;
      if StepDefined(h, prev, d, recs) {
        ChangeLeavesOtherFieldsAlone(h, prev, field, value, decls[1..], Step(h, prev, d, recs));
      }
    }
  }

  /**
    After `handleFilterChange(field, value)` the field is inactive exactly when
    the value is "" or "all"; then every declaration on that field is switched off.
   */
  lemma ClearingDeactivates(h: Host, prev: ActiveValues, field: string, value: string, d: Declaration)
    requires d.field == field
    ensures IsInactive(HandleFilterChange(prev, field, value), field) <==> value == "" || value == "all"
    ensures value == "" || value == "all" ==> Constraint(h, HandleFilterChange(prev, field, value), d).None?
  {
  }

  /**
    Every documented declaration is acted on; beyond the documented ones, the
    only declarations acted on are selections whose third element is not a list.
   */
  lemma ClassifyAcceptsDocumented(d: Declaration)
    ensures Documented(d) ==> Classify(d) != Unrecognised
    ensures Classify(d) != Unrecognised <==> Documented(d) || (d.kind == "selection" && d.modeOrOptions.Mode?)
  {
  }
}
