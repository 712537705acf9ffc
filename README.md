# Filter engine of the vets app's `FilterComponent`

This project models the filtering logic of `FilterComponent` in the React Native vets app.
The component receives a collection of records (`colection`) and a list of declarations
`[field, type, modeOrOptions]`. It keeps the text the user has typed or picked per field
(`filterValues`). When the user asks to filter, `applyFilters` narrows the collection one
declaration at a time.

- A `string` declaration tests the field by mode: `contains` (case-insensitive substring),
  `regex` or `exact`.
- A `numeric` declaration compares the field with `Number(value)` by mode: `eq`, `gt`, `gte`,
  `lt` or `lte`.
- A `selection` declaration tests strict equality with the picked option.
- A declaration is skipped when its value is missing, `""` or `"all"`, when its pattern does
  not compile, when its number is `NaN`, or when its type or mode is not recognised.

Files:

- `sequences.dfy` (module `Sequences`): `Keep`, the behaviour of `Array.prototype.filter`, and
  the subsequence relation, with the lemmas the engine needs (membership, order, fusion of two
  filters).
- `js_values.dfy` (module `JsValues`): record field values (text or integer), the coercions
  JavaScript applies to them (`String(x)`, the number a relational comparison uses), decimal
  rendering of integers, `String.prototype.includes`, and `Host`. `Host` bundles the runtime
  services the component calls but that are not modelled: `toLowerCase`, `new RegExp`/`test`
  and `Number()`.
- `filter_component.dfy` (module `FilterComponent`): the declaration format, what a declaration
  demands (`Constraint`), one narrowing step (`Step`), the fold (`Apply`), the method
  `ApplyFilters`, which follows the component's loop and is proved equal to `Apply`, and
  `HandleFilterChange`.
- `filter_properties.dfy` (module `FilterProperties`): the engine's guarantees. These are AND
  composition, order independence, subsequence, identity when nothing is active, graceful
  degradation, the meaning of each mode, and the effect of `handleFilterChange`.
- `filter_scenarios.dfy` (module `FilterScenarios`): the vets screen's declarations and small
  worked examples.

The model follows the code in several places where a reader might expect something else:

- One might expect a `contains` declaration to exclude a record that lacks the field. Instead,
  `item[field].toString()` throws a TypeError, and the exception leaves `applyFilters`. The
  model states this as the precondition `Defined`: no record still in `filtered` when an
  active `contains` declaration runs may lack its field. `ContainsIsCaseInsensitiveSubstring`
  proves that this is exactly when the step throws. Because an earlier declaration can remove
  the offending record first, the declaration order decides whether the call throws
  (`OrderDecidesThrowing`). It does not change the result when both orders run.
- One might expect `regex` mode to reject a record without the field. Instead the missing
  field is tested as the text `"undefined"`.
- One might expect numeric modes to treat text fields alike. Instead the relational modes
  compare a text field through `Number(text)` (JavaScript's coercion), while `eq` uses `===`
  and so never matches a text field.
- One might expect declarations to be validated. Instead an unrecognised type or mode falls
  through every branch and imposes nothing.
- The documentation comment asks for an option list as the third element of a `selection`.
  `applyFilters` never reads that element, so the options do not affect the result. The
  option picker does use it: `SelectionFilter` maps over it (line 209), and its default `[]`
  (line 194) covers only a missing element. A third element that is not a list would fail
  while rendering, which is not modelled.

## Model

| member | source | states |
|---|---|---|
| `Sequences.Keep` | src/components/filter.component.js:49-77 | `filtered.filter(p)`: the result is no longer than the input and every element it holds satisfies `p` |
| `Sequences.KeepMembers` | src/components/filter.component.js:49-77 | a record is in the output of a filter step iff it was in the input and satisfies the predicate |
| `Sequences.KeepIsSubsequence` | src/components/filter.component.js:49-77 | a filter step only deletes elements and keeps the order of the rest |
| `Sequences.KeepCounts` | src/components/filter.component.js:49-77 | a filter step keeps every occurrence of an element that satisfies the predicate and none of any other: the multiset is the input's restricted to `p` |
| `Sequences.KeepKeep` | src/components/filter.component.js:40-79 | filtering by one predicate and then by another is the same as filtering once by their conjunction |
| `JsValues.NumberToString` | src/components/filter.component.js:50 | `toString()` of a number is non-empty, starts with `-` exactly for negative numbers, has only digits after the sign, and has no leading zero except in `"0"`; `NumberToStringRoundTrip` shows the digits denote the number |
| `JsValues.NumberToStringRoundTrip` | src/components/filter.component.js:50 | reading back what `toString()` writes gives the number: the whole text for `n >= 0`, the text after the `-` for the magnitude of a negative `n` |
| `JsValues.DecimalRoundTrip` | src/components/filter.component.js:50 | reading back the decimal digits written for a number gives the number |
| `JsValues.FieldTextOfNumber` | src/components/filter.component.js:50-55 | the text `item[field].toString()` and `String(item[field])` make of a number field denotes that number: its digits read back as the number, after a `-` when it is negative |
| `JsValues.Includes` | src/components/filter.component.js:50 | `includes` fails when the needle is longer than the text and holds for the empty needle |
| `JsValues.IncludesIffOccurs` | src/components/filter.component.js:50 | `includes` holds exactly when the needle occurs at some position of the text |
| `FilterComponent.Constraint` | src/components/filter.component.js:42-78 | a declaration imposes nothing iff its value is missing, `""` or `"all"`, its type or mode is unrecognised, its pattern does not compile (`regex`), or its number is `NaN` (numeric) |
| `FilterComponent.Classify` | src/components/filter.component.js:47-78 | the branch a declaration takes: `selection` exactly for type `"selection"`, a string mode only for type `"string"` with a mode name, a numeric mode only for type `"numeric"` with a mode name, nothing for any other type |
| `FilterComponent.Passes` | src/components/filter.component.js:49-77 | a record lacking the field passes only a compiled pattern that accepts `"undefined"`, and a record that makes the test throw never passes |
| `FilterComponent.Step` | src/components/filter.component.js:41-78 | one declaration yields a subsequence of `filtered`: all of it when the declaration is skipped, otherwise exactly the records that pass its test |
| `FilterComponent.Defined` | src/components/filter.component.js:49-51 | the fold raises no TypeError when no record of the collection lacks a field read by an active `contains` declaration |
| `FilterComponent.Apply` | src/components/filter.component.js:40-79 | the result of the fold is a subsequence of the collection, with the original order kept |
| `FilterComponent.ApplyFilters` | src/components/filter.component.js:39-81 | the loop over the declarations, with its early returns and swallowed regex error, yields the fold `Apply` and a subsequence of `colection` |
| `FilterComponent.HandleFilterChange` | src/components/filter.component.js:35-37 | the new map holds `value` for `field`, every other entry is unchanged, and no key is lost or invented |
| `FilterProperties.StepKeepsAdmitted` | src/components/filter.component.js:47-78 | one declaration keeps exactly the records its criterion admits, or all records when it is skipped |
| `FilterProperties.ApplyKeepsAllAdmitted` | src/components/filter.component.js:40-79 | the result equals the collection filtered once by the conjunction of all declarations' tests |
| `FilterProperties.ApplyMembers` | src/components/filter.component.js:40-79 | a record is in the result iff it is in the collection and every declaration admits it |
| `FilterProperties.OrderIrrelevant` | src/components/filter.component.js:41-79 | two declaration lists with the same members, in any order and with repeats, give the same result whenever both run without an exception |
| `FilterProperties.OrderIrrelevantWithoutThrow` | src/components/filter.component.js:41-79 | when no declaration can throw on the collection, every rearrangement of the list runs and gives the same result |
| `FilterProperties.AndComposition` | src/components/filter.component.js:40-79 | a record survives all declarations iff it is in the collection and survives each declaration applied alone |
| `FilterProperties.ApplyAppend` | src/components/filter.component.js:40-41 | applying `a ++ b` is applying `a` and then `b`, both for throwing and for the result |
| `FilterProperties.SkippedDeclarationIsRemovable` | src/components/filter.component.js:42-78 | a declaration that imposes nothing can be removed from any position without changing the outcome |
| `FilterProperties.MalformedInputIsIgnored` | src/components/filter.component.js:53-64 | a pattern that makes `new RegExp` throw, or a numeric entry that is `NaN`, acts as if its declaration were absent |
| `FilterProperties.InactiveIsIdentity` | src/components/filter.component.js:42-45 | when every declaration is inactive or unrecognised, the result is the whole collection |
| `FilterProperties.InitialValuesKeepEverything` | src/components/filter.component.js:33-45 | with the initial empty `filterValues`, the result is the whole collection |
| `FilterProperties.ContainsIsCaseInsensitiveSubstring` | src/components/filter.component.js:48-51 | `contains` keeps exactly the records whose lower-cased field text includes the lower-cased value, and it throws iff a record lacks the field |
| `FilterProperties.OnlyContainsThrows` | src/components/filter.component.js:42-78 | a declaration that is inactive or is not a string `contains` test never raises, whatever the records |
| `FilterProperties.RegExpTestsFieldText` | src/components/filter.component.js:52-56 | a compiled pattern keeps exactly the records whose `String(item[field])` it matches, and a missing field is tested as `"undefined"` |
| `FilterProperties.NumericModesCompare` | src/components/filter.component.js:65-75 | on a number field `n`, `eq`/`gt`/`gte`/`lt`/`lte` keep the record iff `n` is `==`/`>`/`>=`/`<`/`<=` the parsed number, and a missing field is never kept |
| `FilterProperties.NumericModesOnText` | src/components/filter.component.js:65-75 | on a text field, `eq` never matches, and the relational modes compare `Number(text)` and fail when it is `NaN` |
| `FilterProperties.NumericModeNames` | src/components/filter.component.js:65-75 | on a number field `n`, the mode names `"eq"`, `"gt"`, `"gte"`, `"lt"`, `"lte"` keep the record iff `n` is `==`, `>`, `>=`, `<`, `<=` the number entered |
| `FilterProperties.StringModeNames` | src/components/filter.component.js:48-58 | the mode name `"contains"` keeps a record with the field iff its lower-cased text includes the lower-cased entry, `"regex"` iff the compiled pattern accepts the field text, `"exact"` iff the field is the entered text |
| `FilterProperties.SelectionIsExactMatch` | src/components/filter.component.js:76-77 | `selection` gives the same result as `exact`, whatever its option list, and keeps exactly the records whose field equals the picked text |
| `FilterProperties.ChangeLeavesOtherFieldsAlone` | src/components/filter.component.js:35-37 | changing one field's value does not change what declarations on other fields do |
| `FilterProperties.ClearingDeactivates` | src/components/filter.component.js:35-45 | after `handleFilterChange(field, value)` the field is inactive iff the value is `""` or `"all"`, and then every declaration on that field imposes nothing |
| `FilterProperties.ClassifyAcceptsDocumented` | src/components/filter.component.js:7-24 | every declaration in the documented format is acted on, and the only other declarations acted on are selections whose third element is not a list |
| `FilterScenarios.VetsFiltersAreRecognised` | src/screens/vets.screen.js:51-56 | the vets screen's four declarations are all in the documented format and acted on |
| `FilterScenarios.ContainsScenario` | src/components/filter.component.js:48-51 | `name` contains `"an"` keeps Ana and drops Bob |
| `FilterScenarios.AtLeastScenario` | src/components/filter.component.js:69-70 | `rating` gte `"3"` keeps rating 4 and drops rating 2 |
| `FilterScenarios.SelectionAllScenario` | src/components/filter.component.js:42-45 | picking `"all"` for `type` on the vets declarations keeps every record |
| `FilterScenarios.MalformedPatternScenario` | src/components/filter.component.js:53-56 | the pattern `"("` given to a `regex` declaration keeps every record |
| `FilterScenarios.NotANumberScenario` | src/components/filter.component.js:61-64 | `"not-a-number"` given to the `rating` declaration keeps every record |
| `FilterScenarios.OrderDecidesThrowing` | src/components/filter.component.js:41-58 | on a record lacking `name`, an `exact` test that removes it first lets a later `contains` on `name` run, while the reverse order throws |

## Left out

- React rendering and hooks are not modelled. This covers the JSX tree, the expanded toggle,
  and the `StringFilter`, `NumericFilter` and `SelectionFilter` inputs with their labels
  (src/components/filter.component.js:83-215). They are UI only.
- `ApplyFilters` takes `filterValues` as a parameter and returns what it would pass to
  `setFilterColection`. React state and the closure are not modelled.
- `HandleFilterChange` returns the new map. The batching of `setFilterValues` updates by React
  is not modelled.
- src/components/search-filter.component.js is not part of this model. It is an unused variant
  of the component.
- src/screens/vets.screen.js, App.js and index.js are not part of this model. They are screen
  wiring and app bootstrap. The vets screen's declaration list is used only as a fixture.
- `toLowerCase`, the regular-expression engine and `Number()` are runtime services, passed in as
  `Host`. Their Unicode and grammar details are not modelled. A compiled pattern's `test` is a
  pure predicate, because the component builds it without the `g` or `y` flag.
- Numbers are integers. Fractional values, `Infinity` and IEEE-754 rounding are not modelled.
  `Number()` is modelled as returning an integer or `NaN`, and numbers of 1e21 or more are not
  written in exponent form.
- Field values are text or numbers only. Booleans, `null`, objects and arrays in records are not
  modelled, and neither are non-text options in a selection.
- Property lookups that reach `Object.prototype` (a field named `constructor`, say) are not
  modelled. A key absent from a map reads as `undefined`.
- Records are compared by value. The identity of JavaScript objects is not modelled.
- An exception raised in `contains` mode is not modelled as a result value. `Defined` is the
  precondition under which `applyFilters` does not throw.
