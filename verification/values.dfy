/** Runtime values handed to the converter, the generic tree it produces, and
    the conversion configuration.

    Go reflection is replaced by pattern matching: each constructor of `Val` is
    one reflect.Kind the converter distinguishes, and a struct value carries its
    own field descriptors (name, exported flag, embedded flag, tags) next to
    each field's value and the zero value of the field's declared type. */
module Values {

  /** Scalar payloads. Every other non-composite kind (floats, complex numbers,
      funcs, unsafe pointers) takes the same default branch as these. */
  datatype Prim = Bool(b: bool) | Int(i: int) | Uint(n: nat) | Str(s: string)

  /** A Go value as seen through an `interface{}`. `marshaler` records whether
      the value's dynamic type implements msgp.Marshaler. `Nil` is the nil
      interface (an invalid reflect.Value), which has no dynamic type at all.
      A nil map and a nil slice are modelled as empty ones, so IsZero cannot
      tell a non-nil empty map or slice from its nil zero value. */
  datatype Val =
    | Nil
    | Scalar(prim: Prim, marshaler: bool)
    | Array(items: seq<Val>, marshaler: bool)
    | Struct(fields: seq<Field>, marshaler: bool)
    | Map(entries: seq<Entry>, marshaler: bool)
    | Slice(items: seq<Val>, marshaler: bool)
    | Chan(marshaler: bool)
    | NilPtr(marshaler: bool)
    | Ptr(target: Val, marshaler: bool)

  /** One key/value pair of a Go map, in the (unspecified) iteration order. */
  datatype Entry = Entry(key: Val, val: Val)

  /** A struct field: its reflect.StructField descriptor (`exported` is
      `PkgPath == ""`, `anonymous` marks an embedded field, `iface` marks a
      field whose declared type is an interface type, `tags` is the struct tag
      already split into its `key:"value"` pairs), the field's value (for an
      interface-typed field, the dynamic value it holds), and the zero value of
      the field's declared type. */
  datatype Field = Field(
    name: string,
    exported: bool,
    anonymous: bool,
    iface: bool,
    tags: map<string, string>,
    value: Val,
    zero: Val)

  /** The generic tree: `map[string]interface{}`, `[]interface{}`, a value
      passed through as it is, or `nil`. */
  datatype Out = ONil | OMap(m: map<string, Out>) | OSeq(s: seq<Out>) | OPass(v: Val)

  /** conversionConfiguration, plus the rendering of map keys that fmt.Sprint
      performs (the fmt package is not part of this model). */
  datatype Config = Config(tagName: string, useMsgPack: bool, keyString: Val -> string)

  /** The value's dynamic type implements msgp.Marshaler; the nil interface
      implements nothing. */
  predicate IsMarshaler(v: Val)
  {
    !v.Nil? && v.marshaler
  }

  /** The escape hatch applies: the value goes out unconverted. */
  predicate Escapes(v: Val, cfg: Config)
  {
    cfg.useMsgPack && IsMarshaler(v)
  }

  /** toValue (and toType, since a model value carries its own field
      descriptors): strips exactly one pointer level; a nil pointer has no
      element, which reflect reports as an invalid value. */
  function ToValue(v: Val): Val
  {
    match v
    case Ptr(t, _) => t
    case NilPtr(_) => Nil
    case _ => v
  }

  /** isZero: reflect.DeepEqual against the zero value of the field's declared
      type, here structural equality. */
  predicate IsZero(f: Field)
  {
    f.value == f.zero
  }
}
