/** What ConvertToValue, convertFromMap and convertFromSlice compute, and the
    promises made about the converter as a whole: totality by kind, exactly one
    pointer level stripped, idempotence on already converted data, and a
    worked `Person` example. */
module Properties {
  import opened Values
  import opened Tags
  import opened Stores
  import opened Conversion
  import opened Flattening

  /** The kind dispatch: the escape hatch returns the input itself without
      descending into it; otherwise, after one pointer level, a struct or a map
      becomes a map, a slice a sequence (an empty one for an empty slice), a
      channel, the nil interface or a nil pointer becomes nil, and every other
      kind is passed through as the dereferenced value. */
  lemma ConvertKinds(v: Val, cfg: Config)
    ensures Escapes(v, cfg) ==> ConvertToValue(v, cfg) == OPass(v)
    ensures !Escapes(v, cfg) ==>
      var r := ConvertToValue(v, cfg);
      var rv := ToValue(v);
      && (r.ONil? <==> rv.Nil? || rv.Chan?)
      && (r.OMap? <==> rv.Struct? || rv.Map?)
      && (r.OSeq? <==> rv.Slice?)
      && (r.OSeq? ==> |r.s| == |rv.items|)
      && (r.OPass? <==> rv.Scalar? || rv.Array? || rv.Ptr? || rv.NilPtr?)
      && (r.OPass? ==> r.v == rv)
  {
  }

  /** ConvertToValue strips exactly one pointer level: a pointer to a
      non-pointer converts like its target (when the target itself would not
      take the escape hatch), and a pointer to a pointer is returned as the
      inner pointer, unconverted. */
  lemma StripsOnePointer(t: Val, m: bool, cfg: Config)
    requires !Escapes(Ptr(t, m), cfg)
    ensures !t.Ptr? && !t.NilPtr? && !Escapes(t, cfg) ==>
      ConvertToValue(Ptr(t, m), cfg) == ConvertToValue(t, cfg)
    ensures t.Ptr? || t.NilPtr? ==> ConvertToValue(Ptr(t, m), cfg) == OPass(t)
  {
  }

  /** The assignments convertFromMap performs: each entry's key rendered by
      fmt.Sprint, with its converted value. */
  function MapWrites(es: seq<Entry>, cfg: Config): seq<(string, Out)>
  {
    seq(|es|, i requires 0 <= i < |es| => (cfg.keyString(es[i].key), ConvertToValue(es[i].val, cfg)))
  }

  /** The loop of convertFromMap performs exactly the assignments of MapWrites. */
  lemma {:induction false} EntriesIsStore(result: map<string, Out>, cfg: Config, es: seq<Entry>)
    ensures ConvertEntries(result, cfg, es) == Store(result, MapWrites(es, cfg))
    decreases |es|
  {
    if es != [] {
      assert MapWrites(es, cfg)[1..] == MapWrites(es[1..], cfg);
      EntriesIsStore(ConvertEntry(result, cfg, es[0]), cfg, es[1..]);
    }
  }

  /** A map converts to a map whose keys are the rendered source keys, so it
      has at most as many entries as the source. */
  lemma MapKeys(es: seq<Entry>, cfg: Config)
    ensures ConvertFromMap(es, cfg).OMap?
    ensures ConvertFromMap(es, cfg).m.Keys == set i | 0 <= i < |es| :: cfg.keyString(es[i].key)
    ensures |ConvertFromMap(es, cfg).m| <= |es|
  {
    var ws := MapWrites(es, cfg);
    EntriesIsStore(map[], cfg, es);
    StoreContents(map[], ws);
    StoreSize(map[], ws);
    forall k | k in KeysOf(ws) ensures k in set i | 0 <= i < |es| :: cfg.keyString(es[i].key) {
      var i :| 0 <= i < |ws| && ws[i].0 == k;
      assert cfg.keyString(es[i].key) == k;
    }
    forall k | k in set i | 0 <= i < |es| :: cfg.keyString(es[i].key) ensures k in KeysOf(ws) {
      var i :| 0 <= i < |es| && cfg.keyString(es[i].key) == k;
      assert ws[i].0 == k;
    }
  }

  /** Entry `i` is the last one, in iteration order, whose key renders to `k`. */
  predicate LastEntryFor(es: seq<Entry>, cfg: Config, k: string, i: int)
    requires 0 <= i < |es|
  {
    && cfg.keyString(es[i].key) == k
    && forall j :: i < j < |es| ==> cfg.keyString(es[j].key) != k
  }

  /** The value under a key of a converted map is the converted value of the
      last entry, in iteration order, whose key renders to that key. */
  lemma MapValueOf(es: seq<Entry>, cfg: Config, k: string) returns (i: nat)
    requires k in ConvertFromMap(es, cfg).m
    ensures i < |es| && LastEntryFor(es, cfg, k, i)
    ensures ConvertFromMap(es, cfg).m[k] == ConvertToValue(es[i].val, cfg)
  {
    var ws := MapWrites(es, cfg);
    EntriesIsStore(map[], cfg, es);
    StoreContents(map[], ws);
    assert k in KeysOf(ws);
    var i0 :| 0 <= i0 < |ws| && ws[i0].0 == k;
    assert Written(ws, k);
    i := LastWrite(ws, k);
    assert forall j :: i < j < |es| ==> ws[j].0 == cfg.keyString(es[j].key);
  }

  /** Every value of a converted map comes from the last entry whose key
      renders to its key. */
  lemma MapValues(es: seq<Entry>, cfg: Config)
    ensures var r := ConvertFromMap(es, cfg).m;
      forall k :: k in r ==>
        exists i :: 0 <= i < |es| && LastEntryFor(es, cfg, k, i) && r[k] == ConvertToValue(es[i].val, cfg)
  {
    var r := ConvertFromMap(es, cfg).m;
    forall k | k in r
      ensures exists i :: 0 <= i < |es| && LastEntryFor(es, cfg, k, i) && r[k] == ConvertToValue(es[i].val, cfg)
    {
      var i := MapValueOf(es, cfg, k);
    }
  }

  /** The rendering of map keys turns a string into itself, as fmt.Sprint does. */
  ghost predicate SprintsStrings(cfg: Config)
  {
    forall s :: cfg.keyString(Scalar(Str(s), false)) == s
  }

  /** The text of a string key, "" for any other key. */
  function KeyText(k: Val): string
  {
    if k.Scalar? && k.prim.Str? then k.prim.s else ""
  }

  /** `v` is a Go value built only of what the converter produces
      (`map[string]interface{}`, `[]interface{}`, nil, and scalars or arrays
      that do not take the escape hatch) and it holds the tree `o`. */
  ghost predicate Holds(v: Val, o: Out, cfg: Config)
    decreases v
  {
    match o
    case ONil => v == Nil
    case OPass(x) => v == x && (x.Scalar? || x.Array?) && !Escapes(x, cfg)
    case OSeq(os) =>
      && v.Slice?
      && !Escapes(v, cfg)
      && |v.items| == |os|
      && forall i :: 0 <= i < |os| ==> Holds(v.items[i], os[i], cfg)
    case OMap(m) =>
      && v.Map?
      && !Escapes(v, cfg)
      && m.Keys == (set i | 0 <= i < |v.entries| :: KeyText(v.entries[i].key))
      && forall i :: 0 <= i < |v.entries| ==> EntryHolds(v.entries[i], m, cfg)
  }

  /** The entry has a string key and its value holds that key's tree in `m`. */
  ghost predicate EntryHolds(e: Entry, m: map<string, Out>, cfg: Config)
    decreases e
  {
    && e.key == Scalar(Str(KeyText(e.key)), false)
    && KeyText(e.key) in m
    && Holds(e.val, m[KeyText(e.key)], cfg)
  }

  /** Converting data that is already in converted form gives it back. */
  lemma {:induction false} Idempotent(v: Val, o: Out, cfg: Config)
    requires SprintsStrings(cfg)
    requires Holds(v, o, cfg)
    ensures ConvertToValue(v, cfg) == o
    decreases v, 1
  {
    match o
    case ONil =>
    case OPass(x) =>
    case OSeq(os) =>
      SliceIdempotent(v, os, cfg);
    case OMap(m) =>
      MapIdempotent(v, m, cfg);
  }

  lemma {:induction false} SliceIdempotent(v: Val, os: seq<Out>, cfg: Config)
    requires SprintsStrings(cfg)
    requires Holds(v, OSeq(os), cfg)
    ensures ConvertToValue(v, cfg) == OSeq(os)
    decreases v, 0
  {
    var xs := v.items;
    var r := ConvertFromSlice(xs, cfg);
    forall i | 0 <= i < |os| ensures r[i] == os[i] {
      Idempotent(xs[i], os[i], cfg);
    }
  }

  lemma {:induction false} MapIdempotent(v: Val, m: map<string, Out>, cfg: Config)
    requires SprintsStrings(cfg)
    requires Holds(v, OMap(m), cfg)
    ensures ConvertToValue(v, cfg) == OMap(m)
    decreases v, 0
  {
    var es := v.entries;
    assert ConvertToValue(v, cfg) == ConvertFromMap(es, cfg);
    var r := ConvertFromMap(es, cfg).m;
    assert m.Keys == (set i | 0 <= i < |es| :: KeyText(es[i].key));
    assert forall i :: 0 <= i < |es| ==> EntryHolds(es[i], m, cfg);
    MapKeys(es, cfg);
    RenderedKeys(es, m, cfg);
    EntriesIdempotent(es, m, cfg);
  }

  /** Each value of the converted map is the tree its entry holds. */
  lemma {:induction false} EntriesIdempotent(es: seq<Entry>, m: map<string, Out>, cfg: Config)
    requires SprintsStrings(cfg)
    requires forall i :: 0 <= i < |es| ==> EntryHolds(es[i], m, cfg)
    ensures forall k :: k in ConvertFromMap(es, cfg).m ==> k in m && ConvertFromMap(es, cfg).m[k] == m[k]
    decreases es
  {
    var r := ConvertFromMap(es, cfg).m;
    RenderedKeys(es, m, cfg);
    forall k | k in r ensures k in m && r[k] == m[k] {
      var i := MapValueOf(es, cfg, k);
      assert KeyText(es[i].key) == k;
      EntryIdempotent(es[i], m, cfg);
    }
  }

  /** String keys render to their own text. */
  lemma RenderedKeys(es: seq<Entry>, m: map<string, Out>, cfg: Config)
    requires SprintsStrings(cfg)
    requires forall i :: 0 <= i < |es| ==> EntryHolds(es[i], m, cfg)
    ensures forall i :: 0 <= i < |es| ==> cfg.keyString(es[i].key) == KeyText(es[i].key)
    ensures (set i | 0 <= i < |es| :: cfg.keyString(es[i].key)) == (set i | 0 <= i < |es| :: KeyText(es[i].key))
  {
    forall i | 0 <= i < |es| ensures cfg.keyString(es[i].key) == KeyText(es[i].key) {
      assert EntryHolds(es[i], m, cfg);
      assert es[i].key == Scalar(Str(KeyText(es[i].key)), false);
    }
  }

  lemma {:induction false} EntryIdempotent(e: Entry, m: map<string, Out>, cfg: Config)
    requires SprintsStrings(cfg)
    requires EntryHolds(e, m, cfg)
    ensures ConvertToValue(e.val, cfg) == m[KeyText(e.key)]
    decreases e
  {
    Idempotent(e.val, m[KeyText(e.key)], cfg);
  }

  /** A `Person{Name string tag:"name"; Age int tag:"age,omitempty"}` converts
      to {"name": Name} when Age is 0 and to {"name": Name, "age": Age}
      otherwise. */
  lemma PersonExample(cfg: Config, name: string, age: int)
    ensures var person := Struct([
        Field("Name", true, false, false, map[cfg.tagName := "name"], Scalar(Str(name), false), Scalar(Str(""), false)),
        Field("Age", true, false, false, map[cfg.tagName := "age,omitempty"], Scalar(Int(age), false), Scalar(Int(0), false))
      ], false);
      ConvertToValue(person, cfg) ==
        if age == 0 then OMap(map["name" := OPass(Scalar(Str(name), false))])
        else OMap(map["name" := OPass(Scalar(Str(name), false)), "age" := OPass(Scalar(Int(age), false))])
  {
    var nameField := Field("Name", true, false, false, map[cfg.tagName := "name"], Scalar(Str(name), false), Scalar(Str(""), false));
    var ageField := Field("Age", true, false, false, map[cfg.tagName := "age,omitempty"], Scalar(Int(age), false), Scalar(Int(0), false));
    assert Join(["age", "omitempty"]) == "age,omitempty";
    SplitJoin(["age", "omitempty"]);
    assert ParseTag(ageField, cfg.tagName) == TagSpec("age", ["omitempty"]);
    assert ParseTag(nameField, cfg.tagName) == TagSpec("name", []);
    assert NameFromTag(nameField, cfg.tagName) == "name";
    assert NameFromTag(ageField, cfg.tagName) == "age";
    assert ConvertToValue(Scalar(Str(name), false), cfg) == OPass(Scalar(Str(name), false));
    assert ConvertToValue(Scalar(Int(age), false), cfg) == OPass(Scalar(Int(age), false));
    var r1 := ConvertField(map[], cfg, nameField);
    assert r1 == map["name" := OPass(Scalar(Str(name), false))];
    assert [nameField, ageField][1..] == [ageField];
    assert [nameField] + [ageField] == [nameField, ageField];
    assert [nameField][1..] == [];
    ConcatFields(map[], cfg, [nameField], [ageField]);
    assert ConvertFromStructDeep(map[], cfg, [nameField, ageField]) == ConvertField(r1, cfg, ageField);
  }
}
