/** Struct-tag parsing: getTagValues, splitTags, parseTag, options.Has and
    getNameFromTag. */
module Tags {
  import opened Values

  /** A parsed tag: the name before the first comma and the option segments
      after it, verbatim and in order. */
  datatype TagSpec = TagSpec(name: string, options: seq<string>)

  /** Position of the first comma of `s`. */
  function FirstComma(s: string): (k: nat)
    requires ',' in s
    ensures k < |s| && s[k] == ','
    ensures ',' !in s[..k]
  {
    if s[0] == ',' then 0
    else
      var k := 1 + FirstComma(s[1..]);
      assert s[..k] == [s[0]] + s[1..][..k - 1];
      k
  }

  /** The inverse of Split: the segments glued back with commas. */
  function Join(parts: seq<string>): string
    requires |parts| >= 1
  {
    if |parts| == 1 then parts[0] else parts[0] + "," + Join(parts[1..])
  }

  /** strings.Split(s, ","): the maximal comma-free segments of `s`, at least
      one of them (the empty string splits into one empty segment). */
  function Split(s: string): (parts: seq<string>)
    ensures |parts| >= 1
    ensures forall i :: 0 <= i < |parts| ==> ',' !in parts[i]
    ensures Join(parts) == s
    decreases |s|
  {
    if ',' !in s then [s]
    else
      var k := FirstComma(s);
      var rest := Split(s[k + 1..]);
      assert ([s[..k]] + rest)[1..] == rest;
      assert s == s[..k] + "," + s[k + 1..];
      [s[..k]] + rest
  }

  /** The first comma of `a + "," + b` is the one after `a` when `a` has none. */
  lemma FirstCommaAfter(a: string, b: string)
    requires ',' !in a
    ensures ',' in a + "," + b
    ensures FirstComma(a + "," + b) == |a|
  {
    var s := a + "," + b;
    assert s[|a|] == ',';
  }

  /** Splitting what Join glued gives back the comma-free segments. */
  lemma {:induction false} SplitJoin(parts: seq<string>)
    requires |parts| >= 1
    requires forall i :: 0 <= i < |parts| ==> ',' !in parts[i]
    ensures Split(Join(parts)) == parts
    decreases |parts|
  {
    if |parts| > 1 {
      var tail := Join(parts[1..]);
      var s := parts[0] + "," + tail;
      assert Join(parts) == s;
      FirstCommaAfter(parts[0], tail);
      assert s[..|parts[0]|] == parts[0];
      assert s[|parts[0]| + 1..] == tail;
      SplitJoin(parts[1..]);
      assert Split(s) == [parts[0]] + Split(tail);
      assert [parts[0]] + parts[1..] == parts;
    }
  }

  /** splitTags: the text before the first comma is the name, the remaining
      segments are the options; a tag without a comma, the empty tag included,
      is all name and has no options. */
  function SplitTags(tags: string): (r: TagSpec)
    ensures ',' !in r.name
    ensures r.name <= tags
    ensures ',' !in tags ==> r.name == tags && r.options == []
    ensures ',' in tags ==> |r.options| >= 1 && tags[|r.name|] == ',' && Join(r.options) == tags[|r.name| + 1..]
    ensures forall i :: 0 <= i < |r.options| ==> ',' !in r.options[i]
  {
    var res := Split(tags);
    if ',' in tags then
      var k := FirstComma(tags);
      assert res == [tags[..k]] + Split(tags[k + 1..]);
      TagSpec(res[0], res[1..])
    else
      TagSpec(res[0], res[1..])
  }

  /** options.Has: some option is exactly `t` (case-sensitive, untrimmed). */
  function Has(opts: seq<string>, t: string): (r: bool)
    ensures r <==> t in opts
  {
    if opts == [] then false
    else if opts[0] == t then true
    else
      assert opts == [opts[0]] + opts[1..];
      Has(opts[1..], t)
  }

  /** getTagValues: reflect.StructTag.Get, which yields "" for an absent key. */
  function TagValue(f: Field, key: string): string
  {
    if key in f.tags then f.tags[key] else ""
  }

  /** parseTag: the field's tag under `key`, split. */
  function ParseTag(f: Field, key: string): TagSpec
  {
    SplitTags(TagValue(f, key))
  }

  /** getNameFromTag: the output key of a field is the raw tag's text before
      its first comma, or the Go field name when that text is empty. */
  function NameFromTag(f: Field, key: string): (name: string)
    ensures var raw := TagValue(f, key);
      (raw == "" || raw[0] == ',') ==> name == f.name
    ensures var raw := TagValue(f, key);
      !(raw == "" || raw[0] == ',') ==>
        && name != ""
        && name <= raw
        && ',' !in name
        && (|name| == |raw| || raw[|name|] == ',')
  {
    var tag := ParseTag(f, key).name;
    if tag != "" then tag else f.name
  }
}
