/** The converter: ConvertToValue and the struct, map and slice converters it
    dispatches to. The functions follow the Go control flow branch for branch;
    what they compute is stated by the lemmas of modules Flattening and
    Properties. */
module Conversion {
  import opened Values
  import opened Tags

  /** ConvertToValue: the escape hatch first, then one pointer level is
      stripped and the value's kind decides. Every kind not named here (scalars,
      arrays, a pointer found under the stripped level) is returned as the
      dereferenced value. */
  function ConvertToValue(v: Val, cfg: Config): Out
    decreases v
  {
    if Escapes(v, cfg) then OPass(v)
    else
      var rv := ToValue(v);
      match rv
      case Struct(fs, _) => ConvertFromStruct(fs, cfg)
      case Map(es, _) => ConvertFromMap(es, cfg)
      case Slice(xs, _) => OSeq(ConvertFromSlice(xs, cfg))
      case Chan(_) => ONil
      case Nil => ONil
      case _ => OPass(rv)
  }

  /** convertFromMap: each entry stored under the rendering of its key, in the
      map's iteration order. */
  function ConvertFromMap(es: seq<Entry>, cfg: Config): Out
    decreases es, 1
  {
    OMap(ConvertEntries(map[], cfg, es))
  }

  /** The loop of convertFromMap from entry `es[0]` on. */
  function ConvertEntries(result: map<string, Out>, cfg: Config, es: seq<Entry>): (r: map<string, Out>)
    ensures result.Keys <= r.Keys
    decreases es, 0
  {
    if es == [] then result
    else ConvertEntries(ConvertEntry(result, cfg, es[0]), cfg, es[1..])
  }

  /** One iteration of convertFromMap. */
  function ConvertEntry(result: map<string, Out>, cfg: Config, e: Entry): map<string, Out>
    decreases e
  {
    result[cfg.keyString(e.key) := ConvertToValue(e.val, cfg)]
  }

  /** convertFromSlice: the elements converted one by one, in order. */
  function ConvertFromSlice(xs: seq<Val>, cfg: Config): (r: seq<Out>)
    ensures |r| == |xs|
    ensures forall i :: 0 <= i < |xs| ==> r[i] == ConvertToValue(xs[i], cfg)
    decreases xs
  {
    if xs == [] then []
    else ConvertFromSlice(xs[..|xs| - 1], cfg) + [ConvertToValue(xs[|xs| - 1], cfg)]
  }

  /** convertFromStruct: the struct's fields flattened into a fresh map. */
  function ConvertFromStruct(fs: seq<Field>, cfg: Config): Out
    decreases fs, 1
  {
    OMap(ConvertFromStructDeep(map[], cfg, fs))
  }

  /** convertFromStructDeep: the fields, in declaration order, stored into
      `result`, which embedded structs share with their container. */
  function ConvertFromStructDeep(result: map<string, Out>, cfg: Config, fs: seq<Field>): (r: map<string, Out>)
    ensures result.Keys <= r.Keys
    decreases fs, 0
  {
    if fs == [] then result
    else ConvertFromStructDeep(ConvertField(result, cfg, fs[0]), cfg, fs[1..])
  }

  /** One iteration of convertFromStructDeep: unexported plain fields are
      skipped; an embedded field of interface type is skipped, since the
      reflect.Value of the field has kind Interface, which is neither a pointer
      nor a struct, whatever it holds; any other embedded field, after one
      pointer level, is flattened into `result` when it is a struct and
      skipped otherwise; a plain field is
      skipped for the tag name "-" or for `omitempty` on a zero value, and
      stored under its tag name or field name otherwise. */
  function ConvertField(result: map<string, Out>, cfg: Config, f: Field): (r: map<string, Out>)
    ensures result.Keys <= r.Keys
    decreases f
  {
    if !f.exported && !f.anonymous then result
    else if f.anonymous then
      if f.iface then result
      else match ToValue(f.value)
      case Struct(inner, _) => ConvertFromStructDeep(result, cfg, inner)
      case _ => result
    else
      var spec := ParseTag(f, cfg.tagName);
      if spec.name == "-" then result
      else if Has(spec.options, "omitempty") && IsZero(f) then result
      else result[NameFromTag(f, cfg.tagName) := ConvertToValue(f.value, cfg)]
  }
}
