# postgresml-django, modelled in Dafny

postgresml-django adds in-database embeddings to Django models. A model that
inherits from the abstract `Embed` model declares `VectorField`s. Each vector
field names the text attribute it embeds, the transformer that embeds it, the
vector's dimensions, and two parameter dicts: one for storing and one for
recalling. This project models the core of that package, in
`src/postgresml_django/main.py`:

- **`Embed.save`** (module `EmbedModel`, class `Instance`, method `Save`).
  The method walks the model's fields in order. For every vector field it checks
  that the source attribute exists, and raises if it does not. It then replaces
  the field's value with an unevaluated `pgml.embed` call when the field is
  selected. A field is selected when the instance has no primary key, when the
  save is a full one, or when the field is named in `update_fields`. After the
  walk it hands over to the framework's save. The loop is proved against
  `EmbedPass`, the same walk written as a function. The lemmas about
  `EmbedPass` state what the hook promises.
- **`GenerateEmbedding`** (module `EmbedFunc`). This is the query expression
  node and the SQL text it compiles to:
  `pgml.embed('<transformer>', <input>, '<json parameters>')`. The
  transformer and the JSON are spliced in verbatim. For an input value other
  than None, the input's `Value` adds a query parameter, so the database
  driver formats the statement: module
  `Driver` models that step, in which `%s` takes the parameter and `%%` stands
  for `%`. `ReadEmbedCall` reads the call the server receives. It reads standard
  quoted literals, which cannot hold NUL, and it decodes the JSON text in the
  layout `json.dumps` writes. Like `jsonb`, it refuses `\u0000`.
  The SQL text is proved against the driver and `ReadEmbedCall`.
- **`json.dumps`** of a parameter dict (module `Json`). This is Python's default
  layout with `ensure_ascii`. The reader `Loads` is its partner, and the two
  round-trip.
- **Standard SQL string literals** (module `SqlLiteral`). A literal doubles its
  single quotes, and a reader undoes that. This module is used to state what a
  correctly quoted call would be.
- **`Embed.vector_search`** (module `EmbedModel`, function `VectorSearch`). It
  builds a query set. The query set annotates each row with
  `distance_function(F(field), Cast(embed(query_text), dimensions))` and orders
  by that distance, ascending.
- **`VectorField.__init__`** (module `VectorFields`). The field is a metadata
  record whose arguments default to None or to the empty dict.

Model state and conventions:
- The instance's attributes are a map from names to values (`Attr`). An
  unevaluated embedding expression is itself a value, `Pending(...)`.
- "Has a primary key" is the truthiness of `self.pk`.
- A call that reached the framework's save is recorded in `writes`.
- An exception is returned as an `Error` value, and when there is one nothing
  is written.
- An input value other than None compiles to the placeholder `%s`. The driver
  replaces it with the value's literal, written `lit` in the lemmas. Where a lemma is about
  the text after that step, the literal is the parameter `compiled`.
- Control characters without an escape of their own (NUL, form feed and so on)
  are named once, in module `Chars`.
- Distance functions are named by string. `CosineDistance` is the default.

## Model

| member | source | states |
|---|---|---|
| EmbedModel.Instance.Save | src/postgresml_django/main.py:28-52 | The attributes and the error after `save` are those of `EmbedPass` over the model's fields in the order of `_meta.get_fields()`. The framework's save is reached once, with the rewritten attributes and the same `update_fields`, exactly when nothing was raised. On an error it is not reached at all. |
| EmbedModel.EmbedPass | src/postgresml_django/main.py:32-50 | The loop of `save` as a function: `Step` applied to each field in turn, stopping at the first error. It has no contract of its own. `Instance.Save` is proved against it, and `PassStopsAtError`, `PassOnlyAssignsSelectedVectorFields`, `PassFailsAtFirstMissingSource`, `PassKeepsKeys` and `PassEmbedsCurrentSource` state its properties. |
| EmbedModel.Step | src/postgresml_django/main.py:33-50 | One field's turn of the loop: the existence check, then the selection test and the assignment. It has no contract of its own. `PassOnlyAssignsSelectedVectorFields`, `PassFailsAtFirstMissingSource` and `PassEmbedsCurrentSource` state its effect through `EmbedPass`. |
| EmbedModel.PassStopsAtError | src/postgresml_django/main.py:32-37 | Once the loop has raised, the fields after that point change nothing. The exception ends the save. |
| EmbedModel.PassFailsAtFirstMissingSource | src/postgresml_django/main.py:32-40 | The save raises if and only if some vector field's `field_to_embed` is absent (or None). This holds whether or not that field is selected. The exception is for the first such field in the order of `_meta.get_fields()`, which lists inherited fields before the class's own. The attributes are then those left by the fields before it. |
| EmbedModel.ErrorIgnoresUpdateFields | src/postgresml_django/main.py:33-40 | The existence check comes before the `update_fields` test. Whether the save raises, and with what, is the same for every primary-key state and every `update_fields`. |
| EmbedModel.PassOnlyAssignsSelectedVectorFields | src/postgresml_django/main.py:32-50 | Nothing else changes. No attribute disappears. Only selected vector fields can gain or change a value, and every other attribute keeps its value, whether or not the loop raises. |
| EmbedModel.NoVectorFieldsSaveUnchanged | src/postgresml_django/main.py:32-33 | A model without vector fields passes its attributes through unchanged and never raises. |
| EmbedModel.PassKeepsKeys | src/postgresml_django/main.py:42-50 | When every vector field is already an attribute, the loop keeps the set of attribute names the same. |
| EmbedModel.PassEmbedsCurrentSource | src/postgresml_django/main.py:40-50 | A selected vector field ends up holding `GenerateEmbedding(Value(v), transformer, store parameters)`. Here `v` is the source attribute's value at the moment the loop reaches that field. |
| EmbedModel.SaveRewritesExactlySelected | src/postgresml_django/main.py:39-50 | After a save that does not raise, a vector field holds an embedding if and only if it is selected: no primary key, a full save, or named in `update_fields`. The embedding is of its source's value before the save, with its transformer and store parameters. Otherwise the field holds its old value. |
| EmbedModel.VectorSearch | src/postgresml_django/main.py:54-77 | The query set `vector_search` builds, or the error for a missing or non-vector field. It has no contract of its own. `VectorSearchUsesRecallSide`, `VectorSearchNeverUsesStoreParameters` and `DistanceFunctionOnlyChangesDistance` state its properties. |
| EmbedModel.VectorSearchUsesRecallSide | src/postgresml_django/main.py:54-77 | The search succeeds exactly for a vector field. It annotates one `distance`, computed by the given distance function between the field's column and the query text's embedding. That embedding uses the field's transformer and recall parameters and is cast to the field's dimensions. The search orders ascending by `distance`. |
| EmbedModel.VectorSearchNeverUsesStoreParameters | src/postgresml_django/main.py:62-66 | The query embedding never carries the store parameters when they differ from the recall parameters. |
| EmbedModel.DistanceFunctionOnlyChangesDistance | src/postgresml_django/main.py:55-77 | The distance-function argument affects only the function named in the annotation. Everything else in the query set is the same. |
| VectorFields.FindField | src/postgresml_django/main.py:59 | The lookup of a field by name fails if and only if no field has that name. Otherwise it returns the first field with that name. |
| VectorFields.FindFieldDistinct | src/postgresml_django/main.py:59 | With distinct field names, the lookup returns the field declared under the name. |
| VectorFields.DefaultParametersAreEmptyObjects | src/postgresml_django/main.py:81-94 | A vector field declared without parameter dicts stores and recalls with empty dicts, written as `{}`. |
| EmbedFunc.AsSql | src/postgresml_django/main.py:10-21 | The SQL text `as_sql` renders from the template, with the transformer and the JSON parameters spliced in verbatim. It has no contract of its own. `AsSqlThroughDriver`, `AsSqlAgreesIffQuoteFree`, `AsSqlRoundTripWhenQuoteFree`, `DefaultParametersRenderEmpty` and the as-written lemmas under Findings state its properties. |
| EmbedFunc.DefaultParametersRenderEmpty | src/postgresml_django/main.py:13-21 | A node built without parameters renders `pgml.embed('<transformer>', <input>, '{}')`. |
| EmbedFunc.AsSqlAgreesIffQuoteFree | src/postgresml_django/main.py:9-21 | The fragment as the template writes it equals the correctly quoted call if and only if neither the transformer nor any parameter key or value contains a single quote. |
| EmbedFunc.AsSqlRoundTripWhenQuoteFree | src/postgresml_django/main.py:9-21 | Without single quotes, the fragment as the server receives it reads back as exactly the node's transformer and parameters. The one exception is NUL in the transformer, which a string constant cannot hold, or in a parameter, which `jsonb` refuses. |
| EmbedFunc.AsSqlThroughDriver | src/postgresml_django/main.py:10-21 | When neither the transformer nor any parameter holds `%`, the driver passes the fragment on unchanged, with the input's literal in place of `%s`. |
| EmbedFunc.AsSqlStrayPercentInTransformer | src/postgresml_django/main.py:10-19 | As written, a transformer name holding exactly one `%`, which is therefore not doubled, makes the driver raise. A name with its `%` signs doubled is the case of `AsSqlHalvesDoubledPercentInTransformer`. |
| EmbedFunc.AsSqlHalvesDoubledPercentInTransformer | src/postgresml_django/main.py:10-19 | As written, a transformer name whose `%` signs are doubled passes the driver with each pair halved, so `a%%b` reaches the database as `a%b`. That is a different name whenever the intended one holds a `%`. The parameters are assumed free of `%`. |
| EmbedFunc.AsSqlStrayPercentInParameter | src/postgresml_django/main.py:10-20 | As written, a parameter value holding exactly one `%`, which is therefore not doubled, makes the driver raise. This is shown for one key and value pair, with the transformer and key free of `%` and the key and value made of printable characters other than `"` and `\`. |
| EmbedFunc.AsSqlHalvesDoubledPercentInParameter | src/postgresml_django/main.py:10-20 | As written, a parameter value whose `%` signs are doubled passes the driver with each pair halved, so `{"prompt": "100%%"}` reaches the database as `{"prompt": "100%"}`. That is a different dict whenever the intended value holds a `%`. This is shown for one key and value pair under the same conditions as `AsSqlStrayPercentInParameter`. |
| EmbedFunc.AsSqlEscapedRoundTrip | src/postgresml_django/main.py:10-21 | The corrected rendering doubles single quotes, then `%` signs, in both literals. The driver turns it into the quoted call, which reads back as the node's transformer and parameters whatever they hold, except for NUL in the transformer or a parameter. |
| EmbedFunc.AsSqlMisreadsQuotedParameter | src/postgresml_django/main.py:10-20 | As written, a parameter value holding a lone single quote ends the JSON literal early, so the call does not read back. This is shown for a one-pair dict, with the transformer, the key and the value before that quote free of single quotes, and the rest of the value not starting with `'`. The key and value may otherwise hold any characters. |
| EmbedFunc.AsSqlQuotedRoundTrip | src/postgresml_django/main.py:10-21 | With both literals quoted by doubling their single quotes, the call the server receives reads back as the node's transformer and parameters, unless the transformer or a parameter holds NUL. |
| EmbedFunc.AsSqlMisreadsQuotedTransformer | src/postgresml_django/main.py:10-19 | As written, a transformer name holding a lone single quote ends its literal early, so the call does not read back. This is shown for a name with no quote before that one and with a non-empty rest that does not start with `'`, `,`, white space or `--`. |
| EmbedFunc.AsSqlHalvesDoubledQuotes | src/postgresml_django/main.py:10-20 | As written, a parameter value whose single quotes are all doubled reaches the database with each pair read as one quote, so `it''s` arrives as `it's`. It is a different dict whenever the intended value holds a quote. This is shown for a one-pair dict with any key and value, the transformer and key free of single quotes. The call reads nothing when the transformer, the key or the value holds NUL. |
| EmbedFunc.ReadEmbedCallOf | src/postgresml_django/main.py:10 | A call with two quoted literals reads back the transformer and the parameters the JSON text decodes to. It reads nothing when the transformer holds NUL or a decoded parameter does. |
| Json.Dumps | src/postgresml_django/main.py:20 | `json.dumps` of a dict of strings, in Python's default layout with `ensure_ascii`. It has no contract of its own. `LoadsDumps`, `DumpsEmpty`, `DumpsInert` and `DumpsPrintable` state its properties. |
| Json.LoadsDumps | src/postgresml_django/main.py:20 | The JSON text of a parameter dict reads back as the same dict, keys and values in order. |
| Json.DumpsEmpty | src/postgresml_django/main.py:13-20 | The dict is written `{}` if and only if it is empty. |
| Json.DumpsInert | src/postgresml_django/main.py:20 | For a character the writer copies as is and never uses in escapes or punctuation, such as `'` or `%`, the JSON text contains it if and only if some key or value does. |
| Json.DumpsPrintable | src/postgresml_django/main.py:20 | The JSON text is printable ASCII only, whatever the dict holds. |
| Json.EscapeRoundTrip | src/postgresml_django/main.py:20 | Every string, including non-ASCII text outside the basic plane, reads back from its escaped form. |
| SqlLiteral.QuoteLiteralRoundTrip | src/postgresml_django/main.py:10 | A literal written with doubled single quotes reads back as exactly the text it was made from. |
| SqlLiteral.DoubleLength | src/postgresml_django/main.py:10 | Doubling adds one character per single quote, so it leaves a text unchanged if and only if the text has no single quote. |

## Left out

- The framework's own `save`, the database and the insert that assigns a primary key are not modelled. The framework's save is recorded as a `Write` of the attributes and `update_fields` it received, and nothing more. An empty `update_fields`, which makes the framework skip the write, is recorded the same way.
- `update_fields` passed positionally is not modelled. The hook only reads the keyword argument, so with a positional list it sees None and re-embeds every vector field, as in a full save. `Save` takes the keyword's value only.
- `hasattr`, `getattr` and `setattr` on the instance are modelled as lookups and updates of the attribute map. Methods, properties and class attributes that `hasattr` would also find count only if they are in the map.
- `Value(...)` compilation is modelled as the placeholder `%s` plus one parameter literal, given as a parameter. The input value is never parsed. `Value(None)` compiles to `NULL` with no parameter. That case is not modelled, and the driver lemmas are stated for a non-None input. The driver is modelled for positional `%s` placeholders only: named `%(name)s` placeholders, server-side binding and how it quotes the value are not modelled.
- EmbedFunc.ReadEmbedCall: reads the statement after the driver's formatting. So `AsSqlRoundTripWhenQuoteFree`, `AsSqlQuotedRoundTrip` and the lemmas on the quote findings hold for the text as the server receives it. On the rendered text with `%s` they hold only when the transformer and parameters are free of `%`, by `AsSqlThroughDriver`. `AsSqlEscapedRoundTrip` covers the whole path.
- EmbedFunc.ReadEmbedCall: PostgreSQL joins two string constants separated only by white space (or `--` comments) that includes a newline. `ReadLiteral` does not, so `AsSqlMisreadsQuotedTransformer` requires that the rest of the name does not start with white space or `--`. For example, the transformer `a'` followed by a newline and `'x` is read by PostgreSQL as `ax`.
- EmbedFunc.ReadEmbedCall: `jsonb`'s normalisation (keys sorted, the last of duplicate keys kept) is not modelled. The reader returns the members in text order. Its refusal of `\u0000` is modelled, and so is the refusal of NUL in the transformer's string constant.
- The `pgml.embed` function, the pgvector distance operators and the `vector` cast are named, not evaluated. The query set is a value describing the query. Its laziness and execution are not modelled.
- `json.dumps` is modelled for dicts whose keys and values are strings. Numbers, booleans, nested objects and floating point are not modelled. Python strings holding lone surrogates cannot be expressed as Dafny `char`s.
- The shared mutable default `{}` of the constructors (one dict object for all fields) is not modelled: dicts are values, so aliasing does not arise.
- `allowed_default = False` and the rest of the framework's expression resolution (output fields, `resolve_expression`) are not part of this model.
- `VectorField` arguments passed through to pgvector's field other than `dimensions` are not modelled.
- EmbedModel.SaveRewritesExactlySelected: stated under three assumptions. Field names are distinct. Every vector field is already an attribute. No vector field embeds another vector field. Without these, `PassEmbedsCurrentSource` gives the general statement in terms of the value current when the loop reaches the field.
- EmbedModel.VectorSearchUsesRecallSide: assumes distinct field names, as a model class always has.
- `GenerateEmbedding` splices the transformer and the JSON between quotes verbatim, with no escaping of `'` or `%` (see Findings).
- For a column that is not a vector field, `vector_search` raises at once at the `.transformer` lookup (main.py:64), so `VectorSearch` returns `NotAVectorField`.

## Findings

| source | as written | input that shows it | evidently intended | confidence | as-written member | corrected member |
|---|---|---|---|---|---|---|
| src/postgresml_django/main.py:10-19 | The transformer name is placed between `'…'` without doubling its single quotes. | The transformer `a'b`: the literal ends after `a`, and `b', …` is read as SQL. | The transformer reads back as the name given. | not executed | EmbedFunc.AsSqlMisreadsQuotedTransformer | EmbedFunc.AsSqlEscapedRoundTrip |
| src/postgresml_django/main.py:10-20 | The JSON parameters are placed between `'…'` without doubling single quotes, and `json.dumps` does not escape them. | The parameters `{"prompt": "it''s"}`: the value reaches the database as `it's`. | The parameters read back as the dict given. | not executed | EmbedFunc.AsSqlHalvesDoubledQuotes | EmbedFunc.AsSqlEscapedRoundTrip |
| src/postgresml_django/main.py:10-20 | As above: a single quote in a parameter value that is not doubled ends the JSON literal. | The parameters `{"prompt": "it's"}`: the call does not read back. | The parameters read back as the dict given. | not executed | EmbedFunc.AsSqlMisreadsQuotedParameter | EmbedFunc.AsSqlEscapedRoundTrip |
| src/postgresml_django/main.py:10-20 | The JSON parameters are placed in the statement without doubling `%`, but the input's `Value` makes the driver format the statement. | The parameters `{"prompt": "100%"}`: the driver raises on the stray `%`. | The parameters read back as the dict given. | not executed | EmbedFunc.AsSqlStrayPercentInParameter | EmbedFunc.AsSqlEscapedRoundTrip |
| src/postgresml_django/main.py:10-19 | The transformer name is placed in the statement without doubling `%`, so a name that doubles its own `%` reaches the database changed. | The transformer `a%%b`: it reaches the database as `a%b`. | The transformer reads back as the name given. | not executed | EmbedFunc.AsSqlHalvesDoubledPercentInTransformer | EmbedFunc.AsSqlEscapedRoundTrip |
| src/postgresml_django/main.py:10-20 | The JSON parameters are placed in the statement without doubling `%`, so a value that doubles its own `%` reaches the database changed. | The parameters `{"prompt": "100%%"}`: they reach the database as `{"prompt": "100%"}`. | The parameters read back as the dict given. | not executed | EmbedFunc.AsSqlHalvesDoubledPercentInParameter | EmbedFunc.AsSqlEscapedRoundTrip |
| src/postgresml_django/main.py:10-19 | The transformer name is placed in the statement without doubling `%`. | The transformer `a%sb`: its `%s` takes the input's parameter, and the input's placeholder has none left. | The transformer reads back as the name given. | not executed | EmbedFunc.AsSqlStrayPercentInTransformer | EmbedFunc.AsSqlEscapedRoundTrip |
