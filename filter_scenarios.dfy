/**
  Concrete filterings: the declarations of the vets screen and small
  collections on which the outcome of `applyFilters` is worked out. The
  runtime services are left open; each scenario names only the facts about
  them it relies on (how a few strings lower-case, which texts parse).
 */
module FilterScenarios {
  import opened JsValues
  import opened Sequences
  import opened FilterComponent
  import opened FilterProperties

  /** The declarations the vets screen hands to the component. */
  function VetsFilters(): (ds: seq<Declaration>)
  {
    [ Declaration("name", "string", Mode("contains")),
      Declaration("rating", "numeric", Mode("gte")),
      Declaration("avgPrice", "numeric", Mode("lte")),
      Declaration("type", "selection", Options(["public", "private"])) ]
  }

  /** Every declaration of the vets screen follows the documented format and is acted on. */
  lemma VetsFiltersAreRecognised()
    ensures forall d :: d in VetsFilters() ==> Documented(d) && Classify(d) != Unrecognised
  {
  }

  function Ana(): (r: Record) { map["name" := Str("Ana"), "rating" := Num(4)] }
  function Bob(): (r: Record) { map["name" := Str("Bob"), "rating" := Num(2)] }

  /** `contains` "an" keeps "Ana" and drops "Bob", whatever the case of the text. */
  lemma ContainsScenario(h: Host)
    requires h.lowerCase("an") == "an" && h.lowerCase("Ana") == "ana" && h.lowerCase("Bob") == "bob"
    ensures Defined(h, map["name" := "an"], [VetsFilters()[0]], [Ana(), Bob()])
    ensures Apply(h, map["name" := "an"], [VetsFilters()[0]], [Ana(), Bob()]) == [Ana()]
  {
    assert Includes("ana", "an");
    assert !Includes("bob", "an") by {
      assert "bob"[1..] == "ob" && "ob"[1..] == "b" && "b"[1..] == "";
      assert !Includes("", "an");
      assert !Includes("b", "an");
      assert "ob"[0] != "an"[0];
      assert !Includes("ob", "an");
    }
  }

  /** `gte` with the entered text "3" keeps the rating 4 and drops the rating 2. */
  lemma AtLeastScenario(h: Host)
    requires h.toNumber("3") == Some(3)
    ensures Defined(h, map["rating" := "3"], [VetsFilters()[1]], [Ana(), Bob()])
    ensures Apply(h, map["rating" := "3"], [VetsFilters()[1]], [Ana(), Bob()]) == [Ana()]
  {
  }

  /** Choosing "all" in the type picker keeps every record. */
  lemma SelectionAllScenario(h: Host, recs: seq<Record>)
    ensures Defined(h, map["type" := "all"], VetsFilters(), recs)
    ensures Apply(h, map["type" := "all"], VetsFilters(), recs) == recs
  {
    InactiveIsIdentity(h, map["type" := "all"], VetsFilters(), recs);
  }

  /** The pattern "(" does not compile, so a `regex` declaration given it keeps everything. */
  lemma MalformedPatternScenario(h: Host, recs: seq<Record>)
    requires h.compileRegExp("(").None?
    ensures Defined(h, map["name" := "("], [Declaration("name", "string", Mode("regex"))], recs)
    ensures Apply(h, map["name" := "("], [Declaration("name", "string", Mode("regex"))], recs) == recs
  {
  }

  /** "not-a-number" parses to `NaN`, so the rating declaration keeps everything. */
  lemma NotANumberScenario(h: Host, recs: seq<Record>)
    requires h.toNumber("not-a-number").None?
    ensures Defined(h, map["rating" := "not-a-number"], [VetsFilters()[1]], recs)
    ensures Apply(h, map["rating" := "not-a-number"], [VetsFilters()[1]], recs) == recs
  {
  }

  /**
    The order of the declarations decides whether `applyFilters` throws. On a
    record `{kind: "y"}` with no `name`, an `exact` test on `kind` for "x"
    first removes the record, so the `contains` test on `name` never sees it;
    in the other order the `contains` test reads the missing `name` and throws.
   */
  lemma OrderDecidesThrowing(h: Host)
    ensures var exact := Declaration("kind", "string", Mode("exact"));
      var contains := Declaration("name", "string", Mode("contains"));
      var active := map["kind" := "x", "name" := "a"];
      var recs := [map["kind" := Str("y")]];
      && Defined(h, active, [exact, contains], recs)
      && Apply(h, active, [exact, contains], recs) == []
      && !Defined(h, active, [contains, exact], recs)
  {
    var contains := Declaration("name", "string", Mode("contains"));
    var active := map["kind" := "x", "name" := "a"];
    var rec: Record := map["kind" := Str("y")];
    assert DeclThrows(h, active, contains, rec);
  }
}
