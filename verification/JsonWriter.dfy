/** `write_canonical`, which appends to an output string, proved to write the canonical form. */
module JsonWriter {
  import opened Collections
  import opened Json

  /** `serde_json::to_string` of a value that is neither an array nor an object. */
  function ScalarText(j: Json): string
    requires !j.Array? && !j.Object?
  {
    match j
    case Null => "null"
    case Bool(b) => if b then "true" else "false"
    case Number(text) => text
    case Str(s) => Quote(s)
  }

  method WriteCanonical(value: Json, output: string) returns (out: string)
    ensures out == output + Canonical(value)
    decreases value, 1
  {
    if value.Object? {
      out := WriteFields(value, output + "{");
      Regroup(output, "{", PrintMembers(Canon(value).members, true));
    } else if value.Array? {
      out := WriteItems(value, output + "[");
      Regroup(output, "[", PrintItems(Canon(value).items, true));
    } else {
      out := output + ScalarText(value);
    }
  }

  method WriteFields(value: Json, output: string) returns (out: string)
    requires value.Object?
    ensures out == output + PrintMembers(Canon(value).members, true)
    decreases value, 0
  {
    out := output;
    var fields := value.fields;
    var keys := SortedKeys(NonNull(fields));
    ghost var members := Canon(value).members;
    var i := 0;
    while i < |keys|
      invariant 0 <= i <= |keys| == |members|
      invariant out + PrintMembers(members[i..], i == 0) == output + PrintMembers(members, true)
    {
      assert keys[i] in keys;
      ghost var before := out;
      if i > 0 {
        out := out + ",";
      }
      ghost var start := out;
      out := out + Quote(keys[i]) + ":";
      out := WriteCanonical(fields[keys[i]], out);
      MemberWritten(before, i == 0, start, members[i..]);
      assert members[i..][1..] == members[i + 1..];
      i := i + 1;
    }
    out := out + "}";
  }

  method WriteItems(value: Json, output: string) returns (out: string)
    requires value.Array?
    ensures out == output + PrintItems(Canon(value).items, true)
    decreases value, 0
  {
    out := output;
    var items := value.items;
    ghost var trees := Canon(value).items;
    var i := 0;
    while i < |items|
      invariant 0 <= i <= |items| == |trees|
      invariant out + PrintItems(trees[i..], i == 0) == output + PrintItems(trees, true)
    {
      ghost var before := out;
      if i > 0 {
        out := out + ",";
      }
      ghost var start := out;
      out := WriteCanonical(items[i], out);
      ItemWritten(before, i == 0, start, trees[i..]);
      assert trees[i..][1..] == trees[i + 1..];
      i := i + 1;
    }
    out := out + "]";
  }

  /** Appending one member and then the rest is appending them all. */
  lemma MemberWritten(out: string, first: bool, start: string, members: seq<Member>)
    requires members != []
    requires start == if first then out else out + ","
    ensures (start + Quote(members[0].key) + ":" + Print(members[0].value)) + PrintMembers(members[1..], false)
         == out + PrintMembers(members, first)
  {
    var key, text, rest := Quote(members[0].key), Print(members[0].value), PrintMembers(members[1..], false);
    Regroup(start + key + ":", text, rest);
    Regroup(start + key, ":", text + rest);
    Regroup(start, key, ":" + (text + rest));
    Regroup(out, ",", key + (":" + (text + rest)));
    assert first ==> "" + (key + (":" + (text + rest))) == key + (":" + (text + rest));
  }

  lemma ItemWritten(out: string, first: bool, start: string, items: seq<Tree>)
    requires items != []
    requires start == if first then out else out + ","
    ensures (start + Print(items[0])) + PrintItems(items[1..], false) == out + PrintItems(items, first)
  {
    var text, rest := Print(items[0]), PrintItems(items[1..], false);
    Regroup(start, text, rest);
    Regroup(out, ",", text + rest);
    assert first ==> "" + (text + rest) == text + rest;
  }
}
