/** The `compare:"..."` struct tag: `compare:"name"` renames a field in
    difference paths, `compare:"name,skip"` (any text after a comma) leaves the
    field out of the comparison. */
module Tags {
  import opened GoStrings

  datatype TagOptions = TagOptions(present: bool, name: string, skip: bool)

  /** getTagOpts: parses the value of a field's `compare` tag. */
  function GetTagOpts(tag: string): (r: TagOptions)
    ensures r.present <==> |tag| > 0
    ensures r.skip <==> ',' in tag
    ensures r.skip ==> |r.name| < |tag| && tag[..|r.name|] == r.name && tag[|r.name|] == ',' && ',' !in r.name
    ensures !r.skip ==> r.name == tag
  {
    var od := Split(tag, ',');
    if |od| > 1 then TagOptions(|tag| > 0, od[0], true)
    else TagOptions(|tag| > 0, tag, false)
  }

  /** A renamed field keeps its new name whenever the name has no comma, and
      the name survives any suffix after the comma. */
  lemma {:induction false} TagRoundTrip(name: string, suffix: string)
    requires ',' !in name
    ensures GetTagOpts(name) == TagOptions(|name| > 0, name, false)
    ensures GetTagOpts(name + "," + suffix) == TagOptions(true, name, true)
  {
    var t := name + "," + suffix;
    assert t[|name|] == ',';
    assert t[..|name|] == name;
  }
}
