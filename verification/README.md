# Value conversion engine of logrus_fluent, in Dafny

The logrus_fluent hook turns each field of a log entry into a plain value tree
before it is encoded and sent to the collector. `ConvertToValue` in
`reflect.go` does the conversion. It turns an arbitrary Go value into nested
`map[string]interface{}`, `[]interface{}`, passed-through values and `nil`:

- structs are flattened into maps, following their struct tags;
- embedded structs merge into their container's map;
- maps are re-keyed by the `fmt.Sprint` rendering of their keys;
- slices are converted element by element;
- with `useMsgPack` set, a value whose type implements `msgp.Marshaler` is
  passed through untouched.

This project models that engine as pure functions over immutable datatypes
and proves what it computes.

Files, one module each:

- `values.dfy` (`Values`): the runtime values (`Val`, one constructor per
  `reflect.Kind` the engine tells apart), struct fields (`Field`, the
  `reflect.StructField` descriptor, a flag for an interface-typed field, the
  field's value and the zero value of its type), the output tree (`Out`) and the configuration (`Config`).
  `ToValue` models `toValue`/`toType` (strip one pointer level) and `IsZero`
  models `isZero`.
- `tags.dfy` (`Tags`): `getTagValues`, `splitTags` (with `strings.Split` on
  `,` and its inverse `Join`), `parseTag`, `options.Has`, `getNameFromTag`.
- `stores.dfy` (`Stores`): a run of `result[key] = value` assignments and its
  last-write-wins semantics, shared by the struct and map converters.
- `conversion.dfy` (`Conversion`): `ConvertToValue`, `convertFromMap`,
  `convertFromSlice`, `convertFromStruct`, `convertFromStructDeep`, following
  the Go control flow branch for branch.
- `flattening.dfy` (`Flattening`): the struct rules stated on their own
  (`Kept`, `DashTag`, `OmitEmpty`, the reference list of assignments
  `StructWrites`), proved equal to what the loop of `convertFromStructDeep`
  does.
- `properties.dfy` (`Properties`): kind dispatch, pointer stripping, map
  conversion, idempotence on already converted data, and a worked `Person` example.

Behaviours of the code that are easy to misread:

- The "every other kind" branch returns `rv.Interface()` after the pointer
  level has been stripped. So a pointer to a scalar yields the scalar itself,
  and a pointer to a pointer yields the inner pointer. Only a non-pointer value
  is returned literally unchanged. The model follows the code
  (`Properties.StripsOnePointer`).
- Tag options are a slice, not a set. Duplicates are kept, but `Has` only asks
  for membership, so the difference is not observable.
- Two fields with the same key: the one processed later wins, even across
  embedding levels. An outer field declared before an embedded struct is
  overwritten by the embedded struct's field of the same key
  (`Flattening.CollisionAcrossEmbedding`). So "the outer field wins" holds
  only when the outer field is declared after the embedded struct.
- An embedded field whose declared type is an interface (embedding
  `fmt.Stringer`, say) is skipped whatever it holds. `values.Field(i)` on it has
  kind `Interface`, which is neither `Ptr` nor `Struct` (reflect.go:79-89), so
  a struct stored in it is not flattened (`Flattening.EmbeddedDropped`,
  `Flattening.EmbeddedInterfaceSkipped`).
- The escape hatch checks the dynamic type of the value as given. A typed nil
  pointer whose type implements `msgp.Marshaler` is therefore passed through,
  not turned into nil.

## Model

| member | source | states |
|---|---|---|
| Conversion.ConvertToValue | reflect.go:17-41 | no contract of its own; what it computes is stated by Properties.ConvertKinds (dispatch by kind), Properties.StripsOnePointer (one pointer level) and Properties.Idempotent (converted data is a fixed point) |
| Conversion.ConvertFromMap | reflect.go:43-50 | no contract of its own; its keys are stated by Properties.MapKeys and its values by Properties.MapValueOf and Properties.MapValues |
| Conversion.ConvertEntry | reflect.go:45-47 | no contract of its own; one loop iteration, stated as one assignment of MapWrites by Properties.EntriesIsStore |
| Conversion.ConvertFromStruct | reflect.go:62-65 | no contract of its own; its output is stated by Flattening.StructOutput, Flattening.FlatStructKeys and Flattening.FlatStructValues |
| Values.ToValue | reflect.go:111-127 | no contract of its own; that it strips exactly one pointer level is stated by Properties.StripsOnePointer |
| Values.IsZero | reflect.go:129-134 | no contract of its own; reflect.DeepEqual against the zero value of the field's type, taken as structural equality; its effect is stated by Flattening.PlainField |
| Values.Escapes | reflect.go:19-24 | no contract of its own; that an escaping value is returned as given is stated by Properties.ConvertKinds |
| Tags.TagValue | reflect.go:145-148 | no contract of its own; an absent tag key reads as the empty tag, whose name is the field name by Tags.NameFromTag |
| Tags.ParseTag | reflect.go:150-153 | no contract of its own; the split of the tag value is stated by Tags.SplitTags |
| Tags.Split | reflect.go:157 | splitting on "," yields at least one segment, no segment contains a comma, and joining the segments with commas gives the input back |
| Tags.SplitJoin | reflect.go:157 | splitting the comma-join of comma-free segments returns exactly those segments, so Split and Join are inverse |
| Tags.SplitTags | reflect.go:156-159 | the name is the comma-free prefix of the tag up to the first comma, and the options, joined with commas, are the rest after that comma; a tag without a comma, the empty tag included, is all name with no options |
| Tags.Has | reflect.go:165-172 | true exactly when some option equals the given text, compared case-sensitively and untrimmed |
| Tags.NameFromTag | reflect.go:137-143 | the key is the raw tag's non-empty text before its first comma; the Go field name is used when the tag is empty or starts with a comma |
| Stores.StoreContents | reflect.go:106 | after a run of map assignments, the keys are the old keys plus the assigned ones; an assigned key holds its last assigned value and every other key is untouched |
| Conversion.ConvertFromSlice | reflect.go:52-58 | the output has the input's length and element i is ConvertToValue of input element i |
| Conversion.ConvertFromStructDeep | reflect.go:67-109 | flattening only adds keys to the shared result map and never removes a key already stored |
| Conversion.ConvertField | reflect.go:69-106 | one field, plain or embedded, only adds keys to the result map |
| Conversion.ConvertEntries | reflect.go:44-49 | the map loop only adds keys to the result map |
| Flattening.DashTagName | reflect.go:93-96 | the parsed tag name is "-" exactly when the raw tag is "-" or starts with "-,", so "-" drops the field whatever options follow |
| Flattening.PlainField | reflect.go:69-106 | a non-embedded field is stored as ConvertToValue of its value under NameFromTag when it is exported, not named "-" and not an omitempty field equal to its zero value; otherwise the map is unchanged |
| Flattening.EmbeddedDropped | reflect.go:74-91 | an embedded field of interface type, whatever it holds, and an embedded nil pointer or non-struct leave the result exactly as if the field were not declared |
| Flattening.EmbeddedInterfaceSkipped | reflect.go:79-90 | the same pointer to a struct is flattened when the embedded field's declared type is that pointer, and contributes nothing when the declared type is an interface holding it; embedded fields never take the escape hatch, so this holds with msgp.Marshaler types too |
| Flattening.EmbeddedIgnoresTags | reflect.go:70-91 | the tags and the exported flag of an embedded field do not affect the result |
| Flattening.ConcatFields | reflect.go:68-107 | flattening a+b equals flattening a and then flattening b into the same map |
| Flattening.EmbeddedInline | reflect.go:87-88 | an embedded struct is flattened exactly as if its fields were declared in its place |
| Flattening.CollisionAcrossEmbedding | reflect.go:74-106 | for the struct of a plain field g and an embedded struct holding only a field h with g's key, the map holds exactly that key, with the value of whichever of g and h is declared later, in either order; the general last-write rule is StructOutput |
| Flattening.FieldIsStore | reflect.go:69-106 | one loop iteration performs exactly the assignments of the reference FieldWrites, in order |
| Flattening.FlattenIsStore | reflect.go:67-109 | the flattening loop performs exactly the assignments of the reference StructWrites, in declaration order, embedded levels included |
| Flattening.StructOutput | reflect.go:62-65 | a struct becomes a map whose keys are the keys of StructWrites; each key holds the converted value of the last field assigned to it, across embedding levels |
| Flattening.FlatStructKeys | reflect.go:68-106 | for a struct without embedded fields, a key is present exactly when some kept field has it as its name; unexported, "-" and empty-omitted fields contribute no key |
| Flattening.FlatStructValues | reflect.go:102-106 | for a struct without embedded fields, a kept field with no later kept field of the same key appears with ConvertToValue of its value, so the later of two colliding fields wins |
| Properties.ConvertKinds | reflect.go:17-41 | the escape hatch returns the input itself; otherwise, after one pointer level, the result is nil exactly for nil, channels and nil pointers, a map exactly for structs and maps, a sequence of the same length exactly for slices, and the dereferenced value for every other kind |
| Properties.StripsOnePointer | reflect.go:112-118 | a pointer to a non-pointer converts like its target; a pointer to a pointer yields the inner pointer unconverted |
| Properties.EntriesIsStore | reflect.go:45-48 | the map loop performs exactly one assignment per entry, of the converted value under the rendered key, in iteration order |
| Properties.MapKeys | reflect.go:43-50 | the converted map's key set is the set of rendered source keys, so it has at most as many entries as the source |
| Properties.MapValueOf | reflect.go:45-48 | the value under a key is ConvertToValue of the last entry whose key renders to that key |
| Properties.MapValues | reflect.go:43-50 | every value of the converted map is ConvertToValue of a source value, namely that of the last entry whose key renders to that key |
| Properties.Idempotent | reflect.go:17-58 | converting a Go value that already has converted form (string-keyed maps, interface slices, nil, scalars and arrays) returns that form unchanged |
| Properties.PersonExample | reflect.go:93-106 | Person{Name `name`, Age `age,omitempty`} converts to {"name": Name} when Age is 0 and to {"name": Name, "age": Age} otherwise |

## Left out

- Conversion.ConvertFromStructDeep: its own contract states only that keys
  are never removed. What it stores is stated by `Flattening.FlattenIsStore`,
  `Flattening.StructOutput` and `Flattening.FlatStructKeys`/`FlatStructValues`.
- Conversion.ConvertField: its own contract states only that keys are never
  removed. What it stores is stated by `Flattening.PlainField`,
  `Flattening.EmbeddedDropped`, `Flattening.EmbeddedInline` and
  `Flattening.FieldIsStore`.
- Conversion.ConvertEntries: its own contract states only that keys are never
  removed. What it stores is stated by `Properties.EntriesIsStore`,
  `Properties.MapKeys` and `Properties.MapValues`.
- The `reflect` package: kinds, fields, tags and pointer dereference are
  constructors and fields of `Val` and `Field`.
- The struct tag syntax `key:"value" key2:"value2"` parsed by
  `reflect.StructTag.Get`: each field carries its tag already split into a map
  from key to value. An absent key reads as "".
- `fmt.Sprint` of map keys is the function `keyString` of `Config`. Every
  result holds for any such function. `Properties.Idempotent` additionally
  assumes that a string renders as itself.
- Go map iteration order is unspecified. A source map is an arbitrary
  sequence of entries, and the results name the last entry in that sequence
  where two keys render alike.
- `reflect.DeepEqual` corner cases (NaN, funcs, nil versus empty maps and
  slices): every field carries the zero value of its type, and `IsZero` is
  structural equality. Since a nil and an empty map or slice are one value in
  the model, an `omitempty` field holding a non-nil empty map or slice is
  dropped by the model. Go keeps it, because `reflect.DeepEqual([]T{}, []T(nil))`
  is false.
- `msgp.Marshaler` is a boolean flag on each value. The msgp library is not
  part of this model.
- Cyclic pointer graphs. The datatypes are acyclic, so the infinite recursion
  the code would enter on a cycle cannot be expressed.
- A nil slice and an empty slice are not told apart. The empty output slice is
  an empty sequence.
- The `!values.IsValid()` guard at reflect.go:98 can never fire. `values` is
  the struct value itself: `convertFromStruct` passes the dereferenced value
  that `ConvertToValue` has just found to have kind `Struct`, and the recursive
  call at reflect.go:88 passes `vv` only after checking its kind is `Struct`.
  The `!vv.IsValid()` guard at reflect.go:80 can never fire either, because
  `Field(i)` of a valid struct value is always valid. Neither guard is
  modelled.
- Floats, complex numbers, funcs and unsafe pointers. As values they take the
  same default branch as the modelled scalars. One float case behaves
  differently and is not modelled: a NaN map key. `rv.MapIndex(key)` at
  reflect.go:46 never finds a NaN key and returns the zero `reflect.Value`, so
  `kv.Interface()` at reflect.go:47 panics. That is the only way the converter
  fails on an acyclic value, and the model, which has no floats, cannot reach
  it.
- Interface-typed storage: a value held in an interface-typed plain field,
  map value or slice element is modelled by its dynamic value, since
  `Interface()` at reflect.go:47, 55 and 106 unwraps it before the recursive
  call. An embedded interface-typed field carries the `iface` flag instead,
  because reflect.go:83-87 inspects its kind without unwrapping it. A pointer
  to an interface is not modelled.
- The logging hook wiring, the encoder and the transport to the collector.
  They are not part of this model and are I/O.
