/** The `VectorField` declaration: metadata only, consulted by the save and search hooks. */
module VectorFields {
  import opened Wrappers
  import opened Json

  /**
    A model field as the model's metadata lists it. A vector field stores its
    constructor arguments as they are given; each one defaults as in its
    declaration (None, or an empty parameter dict).
  */
  datatype Field =
    | VectorField(
        name: string,
        fieldToEmbed: Option<string> := None,
        dimensions: Option<nat> := None,
        transformer: Option<string> := None,
        storeParameters: Params := [],
        recallParameters: Params := [])
    | OtherField(name: string)

  /** A model never declares two fields under one name. */
  predicate DistinctNames(fields: seq<Field>) {
    forall i, j :: 0 <= i < j < |fields| ==> fields[i].name != fields[j].name
  }

  /** True when some vector field of `fields` is called `name`. */
  predicate IsVectorName(fields: seq<Field>, name: string) {
    exists i :: 0 <= i < |fields| && fields[i].VectorField? && fields[i].name == name
  }

  /** The first field called `name`, as an attribute lookup on the model class finds it. */
  function FindField(fields: seq<Field>, name: string): (r: Option<Field>)
    ensures r.None? <==> forall i :: 0 <= i < |fields| ==> fields[i].name != name
    ensures r.Some? ==> exists i :: 0 <= i < |fields| && fields[i] == r.value && r.value.name == name
                                    && forall j :: 0 <= j < i ==> fields[j].name != name
  {
    if fields == [] then None
    else if fields[0].name == name then Some(fields[0])
    else
      var r := FindField(fields[1..], name);
      assert forall i :: 1 <= i < |fields| ==> fields[i] == fields[1..][i - 1];
      r
  }

  /** With distinct names, the field found is the one declared under that name. */
  lemma FindFieldDistinct(fields: seq<Field>, i: nat)
    requires DistinctNames(fields) && i < |fields|
    ensures FindField(fields, fields[i].name) == Some(fields[i])
  {
  }

  /** A field declared without parameters stores and recalls with the empty JSON object. */
  lemma DefaultParametersAreEmptyObjects(
    name: string, fieldToEmbed: Option<string>, dimensions: Option<nat>, transformer: Option<string>)
    ensures var f := VectorField(name, fieldToEmbed, dimensions, transformer);
            f.storeParameters == [] && f.recallParameters == []
            && Dumps(f.storeParameters) == "{}" && Dumps(f.recallParameters) == "{}"
  {
    assert Dumps([]) == "{}";
  }
}
