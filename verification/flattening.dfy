/** The struct flattening rules, stated independently of the loop in
    Conversion.ConvertFromStructDeep, and proved to be what that loop does:
    which fields are kept, under which key, how embedded structs merge, and
    which of two fields with the same key wins. */
module Flattening {
  import opened Values
  import opened Tags
  import opened Stores
  import opened Conversion

  /** The raw tag names the field "-": it is "-" alone or "-" followed by options. */
  predicate DashTag(raw: string)
  {
    raw == "-" || "-," <= raw
  }

  /** One of the raw tag's option segments is exactly "omitempty". */
  predicate OmitEmpty(raw: string)
  {
    "omitempty" in Split(raw)[1..]
  }

  /** A plain (non-embedded) field that appears in the output: exported, not
      named "-", and not an `omitempty` field holding its zero value. */
  predicate Kept(f: Field, cfg: Config)
  {
    var raw := TagValue(f, cfg.tagName);
    && !f.anonymous
    && f.exported
    && !DashTag(raw)
    && !(OmitEmpty(raw) && IsZero(f))
  }

  /** Field `i` is kept and no kept field after it has the same key. */
  predicate LastKept(fs: seq<Field>, cfg: Config, i: int)
    requires 0 <= i < |fs|
  {
    && Kept(fs[i], cfg)
    && forall j :: i < j < |fs| && Kept(fs[j], cfg) ==>
         NameFromTag(fs[j], cfg.tagName) != NameFromTag(fs[i], cfg.tagName)
  }

  /** The tag name parsed by splitTags is "-" exactly when the raw tag is "-"
      or starts with "-,". */
  lemma DashTagName(raw: string)
    ensures SplitTags(raw).name == "-" <==> DashTag(raw)
  {
    var name := SplitTags(raw).name;
    if name == "-" && ',' in raw {
      assert raw[..2] == "-,";
    }
    if "-," <= raw {
      assert raw[1] == ',';
      assert |name| <= 1;
      assert |name| != 0;
    }
  }

  /** A plain field is stored under NameFromTag, converted, when it is kept
      and leaves the map alone otherwise, whatever its options say. */
  lemma PlainField(result: map<string, Out>, cfg: Config, f: Field)
    requires !f.anonymous
    ensures Kept(f, cfg) ==>
      ConvertField(result, cfg, f) == result[NameFromTag(f, cfg.tagName) := ConvertToValue(f.value, cfg)]
    ensures !Kept(f, cfg) ==> ConvertField(result, cfg, f) == result
  {
    DashTagName(TagValue(f, cfg.tagName));
  }

  /** An embedded field of struct type, exported or not and by value or by
      pointer, merges its struct's fields into `result`; an embedded field of
      interface type, a nil pointer or a non-struct adds nothing. */
  lemma EmbeddedField(result: map<string, Out>, cfg: Config, f: Field)
    requires f.anonymous
    ensures !f.iface && ToValue(f.value).Struct? ==>
      ConvertField(result, cfg, f) == ConvertFromStructDeep(result, cfg, ToValue(f.value).fields)
    ensures f.iface || !ToValue(f.value).Struct? ==> ConvertField(result, cfg, f) == result
  {
  }

  /** The tags and the exported flag of an embedded field play no part. */
  lemma EmbeddedIgnoresTags(result: map<string, Out>, cfg: Config, f: Field, tags: map<string, string>, exported: bool)
    requires f.anonymous
    ensures ConvertField(result, cfg, f.(tags := tags, exported := exported)) == ConvertField(result, cfg, f)
  {
  }

  /** Flattening two runs of fields is flattening the first, then the second
      into the same map. */
  lemma {:induction false} ConcatFields(result: map<string, Out>, cfg: Config, a: seq<Field>, b: seq<Field>)
    ensures ConvertFromStructDeep(result, cfg, a + b)
         == ConvertFromStructDeep(ConvertFromStructDeep(result, cfg, a), cfg, b)
    decreases |a|
  {
    if a != [] {
      assert (a + b)[0] == a[0];
      assert (a + b)[1..] == a[1..] + b;
      ConcatFields(ConvertField(result, cfg, a[0]), cfg, a[1..], b);
    } else {
      assert a + b == b;
    }
  }

  /** Flattening a single field is one loop iteration. */
  lemma SingleField(result: map<string, Out>, cfg: Config, f: Field)
    ensures ConvertFromStructDeep(result, cfg, [f]) == ConvertField(result, cfg, f)
  {
  }

  /** An embedded struct is flattened exactly as if its fields were declared
      in its place. */
  lemma EmbeddedInline(result: map<string, Out>, cfg: Config, pre: seq<Field>, e: Field, post: seq<Field>)
    requires e.anonymous && !e.iface && ToValue(e.value).Struct?
    ensures ConvertFromStructDeep(result, cfg, pre + [e] + post)
         == ConvertFromStructDeep(result, cfg, pre + ToValue(e.value).fields + post)
  {
    var inner := ToValue(e.value).fields;
    var r0 := ConvertFromStructDeep(result, cfg, pre);
    ConcatFields(result, cfg, pre + [e], post);
    ConcatFields(result, cfg, pre, [e]);
    ConcatFields(result, cfg, pre + inner, post);
    ConcatFields(result, cfg, pre, inner);
    assert ConvertFromStructDeep(r0, cfg, [e]) == ConvertField(r0, cfg, e);
  }

  /** An embedded field that holds no struct after one pointer level (a nil
      pointer, a field of non-struct type) or whose declared type is an
      interface, whatever value it holds, contributes nothing: the struct
      flattens as if the field were not declared. */
  lemma EmbeddedDropped(result: map<string, Out>, cfg: Config, pre: seq<Field>, e: Field, post: seq<Field>)
    requires e.anonymous && (e.iface || !ToValue(e.value).Struct?)
    ensures ConvertFromStructDeep(result, cfg, pre + [e] + post)
         == ConvertFromStructDeep(result, cfg, pre + post)
  {
    var r0 := ConvertFromStructDeep(result, cfg, pre);
    ConcatFields(result, cfg, pre + [e], post);
    ConcatFields(result, cfg, pre, [e]);
    ConcatFields(result, cfg, pre, post);
    SingleField(r0, cfg, e);
    EmbeddedField(r0, cfg, e);
  }

  /** The same embedded pointer to a struct with one kept field `a`: when the
      field's declared type is the struct pointer, `a` is flattened into the
      result; when it is an interface holding that pointer (embedding, say,
      `fmt.Stringer`), the result is empty. Embedded fields never take the
      escape hatch, so this holds whether or not the pointer type implements
      msgp.Marshaler. */
  lemma EmbeddedInterfaceSkipped(cfg: Config, a: Field, m: bool, mp: bool)
    requires Kept(a, cfg)
    ensures var p := Ptr(Struct([a], m), mp);
      && ConvertFromStruct([Field("T", true, true, false, map[], p, NilPtr(mp))], cfg).m
         == map[NameFromTag(a, cfg.tagName) := ConvertToValue(a.value, cfg)]
      && ConvertFromStruct([Field("Stringer", true, true, true, map[], p, Nil)], cfg).m == map[]
  {
    var p := Ptr(Struct([a], m), mp);
    var byPtr := Field("T", true, true, false, map[], p, NilPtr(mp));
    var byIface := Field("Stringer", true, true, true, map[], p, Nil);
    SingleField(map[], cfg, byPtr);
    EmbeddedField(map[], cfg, byPtr);
    SingleField(map[], cfg, a);
    PlainField(map[], cfg, a);
    SingleField(map[], cfg, byIface);
    EmbeddedField(map[], cfg, byIface);
  }

  /** A collision between a plain field and a field of an embedded struct is
      won by whichever is processed later: declaration order decides, not the
      nesting depth, so an outer field declared before the embedded struct
      loses to the embedded struct's field. */
  lemma CollisionAcrossEmbedding(cfg: Config, g: Field, e: Field, h: Field, m: bool)
    requires Kept(g, cfg) && Kept(h, cfg)
    requires NameFromTag(g, cfg.tagName) == NameFromTag(h, cfg.tagName)
    requires e.anonymous && !e.iface && ToValue(e.value) == Struct([h], m)
    ensures var k := NameFromTag(h, cfg.tagName);
      && ConvertFromStruct([g, e], cfg).m == map[k := ConvertToValue(h.value, cfg)]
      && ConvertFromStruct([e, g], cfg).m == map[k := ConvertToValue(g.value, cfg)]
  {
    var k := NameFromTag(h, cfg.tagName);
    var cg := ConvertToValue(g.value, cfg);
    var ch := ConvertToValue(h.value, cfg);
    assert [g] + [e] == [g, e] && [e] + [g] == [e, g];
    // g first: g stores k, then the embedded h overwrites it.
    SingleField(map[], cfg, g);
    PlainField(map[], cfg, g);
    var r1 := map[k := cg];
    SingleField(r1, cfg, e);
    EmbeddedField(r1, cfg, e);
    SingleField(r1, cfg, h);
    PlainField(r1, cfg, h);
    ConcatFields(map[], cfg, [g], [e]);
    // e first: the embedded h stores k, then g overwrites it.
    SingleField(map[], cfg, e);
    EmbeddedField(map[], cfg, e);
    SingleField(map[], cfg, h);
    PlainField(map[], cfg, h);
    var r2 := map[k := ch];
    SingleField(r2, cfg, g);
    PlainField(r2, cfg, g);
    ConcatFields(map[], cfg, [e], [g]);
  }

  /** The assignments the flattener performs, in order, each with the key and
      the unconverted field value: a reference definition of the rules. */
  function FieldWrites(f: Field, cfg: Config): seq<(string, Val)>
    decreases f
  {
    if f.anonymous then
      if f.iface then []
      else match ToValue(f.value)
      case Struct(inner, _) => StructWrites(inner, cfg)
      case _ => []
    else if Kept(f, cfg) then [(NameFromTag(f, cfg.tagName), f.value)]
    else []
  }

  /** FieldWrites over a run of fields. */
  function StructWrites(fs: seq<Field>, cfg: Config): seq<(string, Val)>
    decreases fs
  {
    if fs == [] then [] else FieldWrites(fs[0], cfg) + StructWrites(fs[1..], cfg)
  }

  /** The assignments with their values converted. */
  function Converted(ws: seq<(string, Val)>, cfg: Config): seq<(string, Out)>
  {
    seq(|ws|, i requires 0 <= i < |ws| => (ws[i].0, ConvertToValue(ws[i].1, cfg)))
  }

  lemma ConvertedAppend(a: seq<(string, Val)>, b: seq<(string, Val)>, cfg: Config)
    ensures Converted(a + b, cfg) == Converted(a, cfg) + Converted(b, cfg)
  {
  }

  /** The loop of convertFromStructDeep performs exactly the assignments of
      StructWrites, in order. */
  lemma {:induction false} FlattenIsStore(result: map<string, Out>, cfg: Config, fs: seq<Field>)
    ensures ConvertFromStructDeep(result, cfg, fs) == Store(result, Converted(StructWrites(fs, cfg), cfg))
    decreases fs, 0
  {
    if fs != [] {
      var a := FieldWrites(fs[0], cfg);
      var b := StructWrites(fs[1..], cfg);
      var r1 := ConvertField(result, cfg, fs[0]);
      FieldIsStore(result, cfg, fs[0]);
      FlattenIsStore(r1, cfg, fs[1..]);
      ConvertedAppend(a, b, cfg);
      StoreAppend(result, Converted(a, cfg), Converted(b, cfg));
    }
  }

  /** One loop iteration performs exactly the assignments of FieldWrites. */
  lemma {:induction false} FieldIsStore(result: map<string, Out>, cfg: Config, f: Field)
    ensures ConvertField(result, cfg, f) == Store(result, Converted(FieldWrites(f, cfg), cfg))
    decreases f
  {
    if f.anonymous && !f.iface {
      match ToValue(f.value)
      case Struct(inner, _) =>
        FlattenIsStore(result, cfg, inner);
      case _ =>
    } else if !f.anonymous {
      PlainField(result, cfg, f);
      var ws := Converted(FieldWrites(f, cfg), cfg);
      if Kept(f, cfg) {
        assert ws[1..] == [];
      }
    }
  }

  /** Converting the values keeps every key at its position, so the last
      assignment to a key is the same one. */
  lemma ConvertedKeys(ws: seq<(string, Val)>, cfg: Config)
    ensures KeysOf(Converted(ws, cfg)) == KeysOf(ws)
    ensures forall k :: Written(Converted(ws, cfg), k) <==> Written(ws, k)
    ensures forall k :: Written(ws, k) ==> LastWrite(Converted(ws, cfg), k) == LastWrite(ws, k)
  {
    var cs := Converted(ws, cfg);
    forall k ensures Written(cs, k) <==> Written(ws, k) {
      if Written(cs, k) {
        var i :| 0 <= i < |cs| && cs[i].0 == k;
        assert ws[i].0 == k;
      }
      if Written(ws, k) {
        var i :| 0 <= i < |ws| && ws[i].0 == k;
        assert cs[i].0 == k;
      }
    }
    forall k | k in KeysOf(cs) ensures k in KeysOf(ws) {
      var i :| 0 <= i < |cs| && cs[i].0 == k;
      assert ws[i].0 == k;
    }
    forall k | k in KeysOf(ws) ensures k in KeysOf(cs) {
      var i :| 0 <= i < |ws| && ws[i].0 == k;
      assert cs[i].0 == k;
    }
    forall k | Written(ws, k) ensures LastWrite(cs, k) == LastWrite(ws, k) {
      var i := LastWrite(ws, k);
      assert cs[i].0 == k;
      var j := LastWrite(cs, k);
      assert ws[j].0 == k;
    }
  }

  /** A struct becomes a map whose keys are the keys of all assignments of
      StructWrites, embedded levels included; each key holds the converted
      value of the LAST field assigned to it, in declaration order. */
  lemma StructOutput(fs: seq<Field>, cfg: Config)
    ensures var r := ConvertFromStruct(fs, cfg);
      && r.OMap?
      && r.m.Keys == KeysOf(StructWrites(fs, cfg))
      && forall k :: k in r.m ==>
           r.m[k] == ConvertToValue(StructWrites(fs, cfg)[LastWrite(StructWrites(fs, cfg), k)].1, cfg)
  {
    var ws := StructWrites(fs, cfg);
    var cs := Converted(ws, cfg);
    FlattenIsStore(map[], cfg, fs);
    StoreContents(map[], cs);
    ConvertedKeys(ws, cfg);
  }

  /** Some kept field of `fs` has key `k`. */
  predicate HasKept(fs: seq<Field>, cfg: Config, k: string)
  {
    exists i :: 0 <= i < |fs| && Kept(fs[i], cfg) && NameFromTag(fs[i], cfg.tagName) == k
  }

  lemma HasKeptSnoc(p: seq<Field>, g: Field, cfg: Config, k: string)
    ensures HasKept(p + [g], cfg, k) <==>
      HasKept(p, cfg, k) || (Kept(g, cfg) && NameFromTag(g, cfg.tagName) == k)
  {
    var fs := p + [g];
    if HasKept(p, cfg, k) {
      var i :| 0 <= i < |p| && Kept(p[i], cfg) && NameFromTag(p[i], cfg.tagName) == k;
      assert fs[i] == p[i];
    }
    if HasKept(fs, cfg, k) {
      var i :| 0 <= i < |fs| && Kept(fs[i], cfg) && NameFromTag(fs[i], cfg.tagName) == k;
      if i < |p| {
        assert p[i] == fs[i];
      }
    }
    if Kept(g, cfg) && NameFromTag(g, cfg.tagName) == k {
      assert fs[|p|] == g;
    }
  }

  /** Flattening one more field at the end is one more loop iteration. */
  lemma FlattenSnoc(result: map<string, Out>, cfg: Config, p: seq<Field>, g: Field)
    ensures ConvertFromStructDeep(result, cfg, p + [g])
         == ConvertField(ConvertFromStructDeep(result, cfg, p), cfg, g)
  {
    ConcatFields(result, cfg, p, [g]);
    assert [g][1..] == [];
  }

  /** For a struct without embedded fields, a key is present exactly when some
      kept field has it: fields that are unexported, tagged "-" or omitted as
      empty never contribute a key of their own. */
  lemma {:induction false} FlatStructKeys(fs: seq<Field>, cfg: Config)
    requires forall i :: 0 <= i < |fs| ==> !fs[i].anonymous
    ensures forall k :: k in ConvertFromStruct(fs, cfg).m <==> HasKept(fs, cfg, k)
    decreases |fs|
  {
    if fs != [] {
      var n := |fs| - 1;
      var p := fs[..n];
      var g := fs[n];
      assert p + [g] == fs;
      FlatStructKeys(p, cfg);
      FlattenSnoc(map[], cfg, p, g);
      PlainField(ConvertFromStructDeep(map[], cfg, p), cfg, g);
      forall k ensures k in ConvertFromStruct(fs, cfg).m <==> HasKept(fs, cfg, k) {
        HasKeptSnoc(p, g, cfg, k);
      }
    }
  }

  /** For a struct without embedded fields, the key of a kept field holds the
      converted value of the last kept field with that key. */
  lemma {:induction false} FlatStructValues(fs: seq<Field>, cfg: Config)
    requires forall i :: 0 <= i < |fs| ==> !fs[i].anonymous
    ensures var r := ConvertFromStruct(fs, cfg).m;
      forall i :: 0 <= i < |fs| && LastKept(fs, cfg, i) ==>
        NameFromTag(fs[i], cfg.tagName) in r
        && r[NameFromTag(fs[i], cfg.tagName)] == ConvertToValue(fs[i].value, cfg)
    decreases |fs|
  {
    if fs != [] {
      var n := |fs| - 1;
      var p := fs[..n];
      var g := fs[n];
      assert p + [g] == fs;
      FlatStructValues(p, cfg);
      var rp := ConvertFromStructDeep(map[], cfg, p);
      FlattenSnoc(map[], cfg, p, g);
      PlainField(rp, cfg, g);
      var r := ConvertFromStruct(fs, cfg).m;
      forall i | 0 <= i < |fs| && LastKept(fs, cfg, i)
        ensures NameFromTag(fs[i], cfg.tagName) in r
        ensures r[NameFromTag(fs[i], cfg.tagName)] == ConvertToValue(fs[i].value, cfg)
      {
        if i < n {
          assert p[i] == fs[i];
          assert LastKept(p, cfg, i) by {
            forall j | i < j < |p| && Kept(p[j], cfg)
              ensures NameFromTag(p[j], cfg.tagName) != NameFromTag(p[i], cfg.tagName)
            {
              assert p[j] == fs[j];
            }
          }
        }
      }
    }
  }
}
