/**
  The `Embed` abstract model: the save hook that turns every vector field into
  an embedding expression before the row is written, and `vector_search`, which
  builds a nearest-first query for a text.
*/
module EmbedModel {
  import opened Wrappers
  import opened Json
  import opened EmbedFunc
  import opened VectorFields

  /** The exceptions the two hooks raise themselves. */
  datatype Error =
    | FieldToEmbedMissing(fieldToEmbed: string)  // AttributeError "Field to embed does not exist: `…`"
    | FieldToEmbedNotString                      // TypeError from `hasattr` when `field_to_embed` is None
    | NoSuchField(name: string)                  // AttributeError from the attribute lookup on the model class
    | NotAVectorField(name: string)              // AttributeError: the field has no `transformer`

  // ------------------------------------------------------------------ save

  /**
    Whether a vector field is re-embedded: the instance has no primary key yet,
    or the save is a full one, or the partial update names the field.
  */
  predicate Selected(hasPk: bool, updateFields: Option<set<string>>, name: string) {
    !hasPk || updateFields.None? || name in updateFields.value
  }

  /** The attributes after the field loop, and the exception that stopped it, if any. */
  datatype Pass = Pass(attrs: map<string, Attr>, error: Option<Error>)

  /** One turn of the field loop. */
  function Step(field: Field, attrs: map<string, Attr>, hasPk: bool, updateFields: Option<set<string>>): Pass {
    match field
    case OtherField(_) => Pass(attrs, None)
    case VectorField(name, fieldToEmbed, _, transformer, storeParameters, _) =>
      if fieldToEmbed.None? then Pass(attrs, Some(FieldToEmbedNotString))
      else if fieldToEmbed.value !in attrs then Pass(attrs, Some(FieldToEmbedMissing(fieldToEmbed.value)))
      else if Selected(hasPk, updateFields, name) then
        Pass(attrs[name := Pending(GenerateEmbedding(attrs[fieldToEmbed.value], transformer, storeParameters))], None)
      else Pass(attrs, None)
  }

  /** The field loop over `fields` in order, stopping at the first exception. */
  function EmbedPass(fields: seq<Field>, attrs: map<string, Attr>, hasPk: bool, updateFields: Option<set<string>>): Pass
    decreases |fields|
  {
    if fields == [] then Pass(attrs, None)
    else
      var before := EmbedPass(fields[..|fields| - 1], attrs, hasPk, updateFields);
      if before.error.Some? then before
      else Step(fields[|fields| - 1], before.attrs, hasPk, updateFields)
  }

  /** A call that reached the framework's own save, with what it was given. */
  datatype Write = Write(attrs: map<string, Attr>, updateFields: Option<set<string>>)

  /**
    A model instance: its attribute values, whether its primary key is set
    (truthy), and the calls that reached the framework's own save.
  */
  class Instance {
    const fields: seq<Field>
    var attrs: map<string, Attr>
    var hasPk: bool
    var writes: seq<Write>

    constructor (fields: seq<Field>, attrs: map<string, Attr>, hasPk: bool)
      ensures this.fields == fields && this.attrs == attrs && this.hasPk == hasPk && writes == []
    {
      this.fields := fields;
      this.attrs := attrs;
      this.hasPk := hasPk;
      writes := [];
    }

    /**
      `save(update_fields=...)`: rewrites the selected vector fields in place,
      then hands over to the framework's save; an exception stops it first.
    */
    method Save(updateFields: Option<set<string>>) returns (error: Option<Error>)
      modifies this`attrs, this`writes
      ensures Pass(attrs, error) == EmbedPass(fields, old(attrs), hasPk, updateFields)
      ensures writes == if error.None? then old(writes) + [Write(attrs, updateFields)] else old(writes)
    {
      error := None;
      var i := 0;
      while i < |fields| && error.None?
        invariant 0 <= i <= |fields|
        invariant Pass(attrs, error) == EmbedPass(fields[..i], old(attrs), hasPk, updateFields)
        invariant writes == old(writes)
      {
        var field := fields[i];
        if field.VectorField? {
          if field.fieldToEmbed.None? {
            error := Some(FieldToEmbedNotString);
          } else if field.fieldToEmbed.value !in attrs {
            error := Some(FieldToEmbedMissing(field.fieldToEmbed.value));
          } else if !hasPk || updateFields.None? || field.name in updateFields.value {
            var valueToEmbed := attrs[field.fieldToEmbed.value];
            attrs := attrs[field.name := Pending(GenerateEmbedding(valueToEmbed, field.transformer, field.storeParameters))];
          }
        }
        assert fields[..i + 1][..i] == fields[..i];
        i := i + 1;
      }
      if error.None? {
        assert fields[..i] == fields;
        writes := writes + [Write(attrs, updateFields)];
      } else {
        PassStopsAtError(fields, old(attrs), hasPk, updateFields, i);
      }
    }
  }

  /** Once the loop has raised, the later fields change nothing. */
  lemma {:induction false} PassStopsAtError(
    fields: seq<Field>, attrs: map<string, Attr>, hasPk: bool, updateFields: Option<set<string>>, i: nat)
    requires i <= |fields|
    requires EmbedPass(fields[..i], attrs, hasPk, updateFields).error.Some?
    ensures EmbedPass(fields, attrs, hasPk, updateFields) == EmbedPass(fields[..i], attrs, hasPk, updateFields)
    decreases |fields| - i
  {
    if i < |fields| {
      var init := fields[..|fields| - 1];
      assert init[..i] == fields[..i];
      PassStopsAtError(init, attrs, hasPk, updateFields, i);
    } else {
      assert fields[..i] == fields;
    }
  }

  /**
    Nothing else changes: the loop only assigns vector fields that are selected.
    Every other attribute keeps its value, and no attribute disappears; this
    holds whether or not the loop raises.
  */
  lemma {:induction false} PassOnlyAssignsSelectedVectorFields(
    fields: seq<Field>, attrs: map<string, Attr>, hasPk: bool, updateFields: Option<set<string>>)
    ensures var after := EmbedPass(fields, attrs, hasPk, updateFields).attrs;
            && attrs.Keys <= after.Keys
            && (forall k :: k in after && k !in attrs ==> IsVectorName(fields, k) && Selected(hasPk, updateFields, k))
            && (forall k :: k in attrs && !(IsVectorName(fields, k) && Selected(hasPk, updateFields, k))
                  ==> after[k] == attrs[k])
  {
    if fields != [] {
      var init := fields[..|fields| - 1];
      PassOnlyAssignsSelectedVectorFields(init, attrs, hasPk, updateFields);
      forall k | IsVectorName(init, k) ensures IsVectorName(fields, k) {
        var i :| 0 <= i < |init| && init[i].VectorField? && init[i].name == k;
        assert fields[i] == init[i];
      }
      var last := fields[|fields| - 1];
      if last.VectorField? {
        assert IsVectorName(fields, last.name) by {
          assert fields[|fields| - 1] == last;
        }
      }
    }
  }

  /** A model without vector fields saves exactly as the framework would. */
  lemma {:induction false} NoVectorFieldsSaveUnchanged(
    fields: seq<Field>, attrs: map<string, Attr>, hasPk: bool, updateFields: Option<set<string>>)
    requires forall i :: 0 <= i < |fields| ==> fields[i].OtherField?
    ensures EmbedPass(fields, attrs, hasPk, updateFields) == Pass(attrs, None)
  {
    if fields != [] {
      NoVectorFieldsSaveUnchanged(fields[..|fields| - 1], attrs, hasPk, updateFields);
    }
  }

  /** Every vector field is an attribute of the instance, as the framework sets them up. */
  predicate NamesPresent(fields: seq<Field>, attrs: map<string, Attr>) {
    forall i :: 0 <= i < |fields| && fields[i].VectorField? ==> fields[i].name in attrs
  }

  /** The check that raises for a vector field, against the names the instance has. */
  predicate MissingSource(field: Field, keys: set<string>) {
    field.VectorField? && (field.fieldToEmbed.None? || field.fieldToEmbed.value !in keys)
  }

  function SourceError(field: Field): Error
    requires field.VectorField?
  {
    if field.fieldToEmbed.None? then FieldToEmbedNotString else FieldToEmbedMissing(field.fieldToEmbed.value)
  }

  lemma {:induction false} PassKeepsKeys(
    fields: seq<Field>, attrs: map<string, Attr>, hasPk: bool, updateFields: Option<set<string>>)
    requires NamesPresent(fields, attrs)
    ensures EmbedPass(fields, attrs, hasPk, updateFields).attrs.Keys == attrs.Keys
  {
    PassOnlyAssignsSelectedVectorFields(fields, attrs, hasPk, updateFields);
    var after := EmbedPass(fields, attrs, hasPk, updateFields).attrs;
    forall k | IsVectorName(fields, k) ensures k in attrs {
      var i :| 0 <= i < |fields| && fields[i].VectorField? && fields[i].name == k;
    }
  }

  /**
    The save raises exactly when some vector field names a missing attribute,
    whether or not that field would be rewritten. It raises for the first such
    field, after the fields before it were already rewritten in memory.
  */
  lemma {:induction false} PassFailsAtFirstMissingSource(
    fields: seq<Field>, attrs: map<string, Attr>, hasPk: bool, updateFields: Option<set<string>>)
    requires NamesPresent(fields, attrs)
    ensures var p := EmbedPass(fields, attrs, hasPk, updateFields);
            && (p.error.None? <==> forall i :: 0 <= i < |fields| ==> !MissingSource(fields[i], attrs.Keys))
            && (p.error.Some? ==>
                  exists i :: 0 <= i < |fields| && MissingSource(fields[i], attrs.Keys)
                    && (forall j :: 0 <= j < i ==> !MissingSource(fields[j], attrs.Keys))
                    && p.error == Some(SourceError(fields[i]))
                    && p.attrs == EmbedPass(fields[..i], attrs, hasPk, updateFields).attrs)
  {
    if fields != [] {
      var n := |fields| - 1;
      var init := fields[..n];
      assert NamesPresent(init, attrs) by {
        forall i | 0 <= i < |init| && init[i].VectorField? ensures init[i].name in attrs {
          assert init[i] == fields[i];
        }
      }
      PassFailsAtFirstMissingSource(init, attrs, hasPk, updateFields);
      var before := EmbedPass(init, attrs, hasPk, updateFields);
      if before.error.Some? {
        var i :| 0 <= i < |init| && MissingSource(init[i], attrs.Keys)
                 && (forall j :: 0 <= j < i ==> !MissingSource(init[j], attrs.Keys))
                 && before.error == Some(SourceError(init[i]))
                 && before.attrs == EmbedPass(init[..i], attrs, hasPk, updateFields).attrs;
        assert fields[i] == init[i];
        assert init[..i] == fields[..i];
        assert forall j :: 0 <= j < i ==> fields[j] == init[j];
      } else {
        PassKeepsKeys(init, attrs, hasPk, updateFields);
        assert forall j :: 0 <= j < n ==> fields[j] == init[j];
        if MissingSource(fields[n], attrs.Keys) {
          assert init == fields[..n];
        }
      }
    }
  }

  /** Whether the save raises, and with what, does not depend on the update list or the key. */
  lemma ErrorIgnoresUpdateFields(
    fields: seq<Field>, attrs: map<string, Attr>,
    hasPk1: bool, updateFields1: Option<set<string>>, hasPk2: bool, updateFields2: Option<set<string>>)
    requires NamesPresent(fields, attrs)
    ensures EmbedPass(fields, attrs, hasPk1, updateFields1).error == EmbedPass(fields, attrs, hasPk2, updateFields2).error
  {
    PassFailsAtFirstMissingSource(fields, attrs, hasPk1, updateFields1);
    PassFailsAtFirstMissingSource(fields, attrs, hasPk2, updateFields2);
    var p1 := EmbedPass(fields, attrs, hasPk1, updateFields1);
    var p2 := EmbedPass(fields, attrs, hasPk2, updateFields2);
    if p1.error.Some? {
      var i1 :| 0 <= i1 < |fields| && MissingSource(fields[i1], attrs.Keys)
                && (forall j :: 0 <= j < i1 ==> !MissingSource(fields[j], attrs.Keys))
                && p1.error == Some(SourceError(fields[i1]));
      var i2 :| 0 <= i2 < |fields| && MissingSource(fields[i2], attrs.Keys)
                && (forall j :: 0 <= j < i2 ==> !MissingSource(fields[j], attrs.Keys))
                && p2.error == Some(SourceError(fields[i2]));
      assert i1 == i2;
    }
  }

  /**
    A selected vector field becomes an embedding of the value its source
    attribute holds when the loop reaches it, with its transformer and its
    store parameters.
  */
  lemma {:induction false} PassEmbedsCurrentSource(
    fields: seq<Field>, attrs: map<string, Attr>, hasPk: bool, updateFields: Option<set<string>>, i: nat)
    requires DistinctNames(fields)
    requires i < |fields| && fields[i].VectorField? && Selected(hasPk, updateFields, fields[i].name)
    requires EmbedPass(fields, attrs, hasPk, updateFields).error.None?
    ensures var f := fields[i];
            var current := EmbedPass(fields[..i], attrs, hasPk, updateFields).attrs;
            && f.fieldToEmbed.Some? && f.fieldToEmbed.value in current
            && f.name in EmbedPass(fields, attrs, hasPk, updateFields).attrs
            && EmbedPass(fields, attrs, hasPk, updateFields).attrs[f.name]
               == Pending(GenerateEmbedding(current[f.fieldToEmbed.value], f.transformer, f.storeParameters))
  {
    var n := |fields| - 1;
    var init := fields[..n];
    var before := EmbedPass(init, attrs, hasPk, updateFields);
    if i == n {
      assert init == fields[..i];
    } else {
      assert DistinctNames(init) by {
        forall a, b | 0 <= a < b < |init| ensures init[a].name != init[b].name {
          assert init[a] == fields[a] && init[b] == fields[b];
        }
      }
      assert init[i] == fields[i];
      assert init[..i] == fields[..i];
      PassEmbedsCurrentSource(init, attrs, hasPk, updateFields, i);
      assert fields[n].name != fields[i].name;
    }
  }

  /** No vector field takes its text from a vector field. */
  predicate SourcesArePlain(fields: seq<Field>) {
    forall i :: 0 <= i < |fields| && fields[i].VectorField? && fields[i].fieldToEmbed.Some?
      ==> !IsVectorName(fields, fields[i].fieldToEmbed.value)
  }

  /**
    After a successful save, a vector field holds an embedding of its source's
    value as it was before the save if it is selected (no primary key, full
    save, or named in the update list), and its old value otherwise.
  */
  lemma SaveRewritesExactlySelected(
    fields: seq<Field>, attrs: map<string, Attr>, hasPk: bool, updateFields: Option<set<string>>, i: nat)
    requires DistinctNames(fields) && NamesPresent(fields, attrs) && SourcesArePlain(fields)
    requires i < |fields| && fields[i].VectorField?
    requires EmbedPass(fields, attrs, hasPk, updateFields).error.None?
    ensures var f := fields[i];
            && f.fieldToEmbed.Some? && f.fieldToEmbed.value in attrs
            && f.name in EmbedPass(fields, attrs, hasPk, updateFields).attrs
            && EmbedPass(fields, attrs, hasPk, updateFields).attrs[f.name]
               == if Selected(hasPk, updateFields, f.name)
                  then Pending(GenerateEmbedding(attrs[f.fieldToEmbed.value], f.transformer, f.storeParameters))
                  else attrs[f.name]
  {
    var f := fields[i];
    PassFailsAtFirstMissingSource(fields, attrs, hasPk, updateFields);
    assert !MissingSource(fields[i], attrs.Keys);
    PassOnlyAssignsSelectedVectorFields(fields, attrs, hasPk, updateFields);
    if Selected(hasPk, updateFields, f.name) {
      PassEmbedsCurrentSource(fields, attrs, hasPk, updateFields, i);
      var src := f.fieldToEmbed.value;
      PassOnlyAssignsSelectedVectorFields(fields[..i], attrs, hasPk, updateFields);
      assert !IsVectorName(fields, src);
      assert forall j :: 0 <= j < i ==> fields[..i][j] == fields[j];
    } else {
      assert IsVectorName(fields, f.name);
    }
  }

  // ------------------------------------------------------------------ vector_search

  const CosineDistance: string := "CosineDistance"

  /** `Cast(expression, output_field=VectorField(dimensions=...))`. */
  datatype Cast = Cast(expression: GenerateEmbedding, dimensions: Option<nat>)

  /** `distance_function(F(column), target)`: the distance function, by name, and its two operands. */
  datatype Distance = Distance(distanceFunction: string, column: string, target: Cast)

  /** A lazily evaluated query over the model's rows: its annotations and its `order_by` terms. */
  datatype QuerySet = QuerySet(annotations: seq<(string, Distance)>, orderBy: seq<string>)

  /** `vector_search(field, query_text, distance_function)`. */
  function VectorSearch(fields: seq<Field>, field: string, queryText: string, distanceFunction: string := CosineDistance)
    : Result<QuerySet, Error>
  {
    match FindField(fields, field)
    case None => Failure(NoSuchField(field))
    case Some(OtherField(_)) => Failure(NotAVectorField(field))
    case Some(f) =>
      var queryEmbedding := GenerateEmbedding(Text(queryText), f.transformer, f.recallParameters);
      Success(QuerySet(
        [("distance", Distance(distanceFunction, field, Cast(queryEmbedding, f.dimensions)))],
        ["distance"]))
  }

  /** An `order_by` term without a leading `-` sorts ascending. */
  predicate Ascending(term: string) {
    |term| == 0 || term[0] != '-'
  }

  /**
    The search succeeds exactly for a vector field. It then embeds the query
    text with that field's transformer and recall parameters, casts the result
    to the field's dimensions, compares it with the field's column, and orders
    ascending by the distance it annotates.
  */
  lemma VectorSearchUsesRecallSide(
    fields: seq<Field>, field: string, queryText: string, distanceFunction: string)
    requires DistinctNames(fields)
    ensures VectorSearch(fields, field, queryText, distanceFunction).Success? <==> IsVectorName(fields, field)
    ensures forall i :: 0 <= i < |fields| && fields[i].VectorField? && fields[i].name == field ==>
              var f := fields[i];
              var r := VectorSearch(fields, field, queryText, distanceFunction);
              && r.Success? && |r.value.annotations| == 1 && r.value.annotations[0].0 == "distance"
              && r.value.annotations[0].1.distanceFunction == distanceFunction
              && r.value.annotations[0].1.column == f.name
              && r.value.annotations[0].1.target.expression
                 == GenerateEmbedding(Text(queryText), f.transformer, f.recallParameters)
              && r.value.annotations[0].1.target.dimensions == f.dimensions
              && r.value.orderBy == [r.value.annotations[0].0] && Ascending(r.value.orderBy[0])
  {
    if IsVectorName(fields, field) {
      var i :| 0 <= i < |fields| && fields[i].VectorField? && fields[i].name == field;
      FindFieldDistinct(fields, i);
    } else {
      match FindField(fields, field)
      case None =>
      case Some(f) =>
        var i :| 0 <= i < |fields| && fields[i] == f && f.name == field;
    }
  }

  /** The store parameters reach the search only where they coincide with the recall parameters. */
  lemma VectorSearchNeverUsesStoreParameters(
    fields: seq<Field>, field: string, queryText: string, distanceFunction: string, i: nat)
    requires DistinctNames(fields)
    requires i < |fields| && fields[i].VectorField? && fields[i].name == field
    requires fields[i].storeParameters != fields[i].recallParameters
    ensures VectorSearch(fields, field, queryText, distanceFunction).Success?
    ensures VectorSearch(fields, field, queryText, distanceFunction).value.annotations[0].1.target.expression.parameters
            != fields[i].storeParameters
  {
    VectorSearchUsesRecallSide(fields, field, queryText, distanceFunction);
  }

  /** Changing the distance function changes only the distance function. */
  lemma DistanceFunctionOnlyChangesDistance(
    fields: seq<Field>, field: string, queryText: string, d1: string, d2: string)
    ensures VectorSearch(fields, field, queryText, d1).Success? == VectorSearch(fields, field, queryText, d2).Success?
    ensures VectorSearch(fields, field, queryText, d1).Success? ==>
              var q1 := VectorSearch(fields, field, queryText, d1).value;
              var q2 := VectorSearch(fields, field, queryText, d2).value;
              && q1.orderBy == q2.orderBy
              && |q1.annotations| == |q2.annotations| == 1
              && q1.annotations[0].0 == q2.annotations[0].0
              && q2.annotations[0].1 == q1.annotations[0].1.(distanceFunction := d2)
  {
  }
}
