/** The `data` object `handleTrigger` sends: form fields or the input's own
    value, overridden by the `wx-data` JSON object, overridden (in the full
    runtime only) by the element's `data-*` attributes. */
module RequestData {
  import opened Wrappers
  import opened Text
  import opened Dom
  import opened Wire

  /** `Object.fromEntries(formData.entries())`: a later entry with the same
      name overwrites an earlier one. */
  function FromEntries(entries: seq<(string, string)>): (r: Payload)
    ensures forall k :: k in r <==> exists i | 0 <= i < |entries| :: entries[i].0 == k
  {
    if entries == [] then map[]
    else
      var last := entries[|entries| - 1];
      var r := FromEntries(entries[..|entries| - 1])[last.0 := last.1];
      assert forall i | 0 <= i < |entries| - 1 :: entries[..|entries| - 1][i] == entries[i];
      r
  }

  /** The value of a form field is the one its last entry carries. */
  lemma {:induction false} FromEntriesLastWins(entries: seq<(string, string)>, i: int)
    requires 0 <= i < |entries|
    requires forall j | i < j < |entries| :: entries[j].0 != entries[i].0
    ensures entries[i].0 in FromEntries(entries) && FromEntries(entries)[entries[i].0] == entries[i].1
    decreases |entries|
  {
    if i < |entries| - 1 {
      var init := entries[..|entries| - 1];
      assert init[i] == entries[i];
      FromEntriesLastWins(init, i);
    }
  }

  /** The data collected from the element itself: a form's fields, or an
      input, textarea or select element's value under its `name` (or under
      `"value"` when it has none), or nothing. */
  function ElementData(node: Node): (r: Payload)
    ensures node.tag == Form ==> r == FromEntries(node.formEntries)
    ensures node.tag in {Input, TextArea, Select} ==>
      var name := if "name" in node.attrs then Some(node.attrs["name"]) else None;
      r == map[OrElse(name, "value") := node.value]
    ensures node.tag == OtherTag ==> r == map[]
  {
    match node.tag
    case Form => FromEntries(node.formEntries)
    case OtherTag => map[]
    case _ =>
      var name := if "name" in node.attrs then Some(node.attrs["name"]) else None;
      map[OrElse(name, "value") := node.value]
  }

  /** `{...data, ...JSON.parse(wxData)}` when `wx-data` is present and
      non-empty and parses; the data unchanged otherwise. `parse` is
      `JSON.parse` reduced to the own entries the spread copies, `None` when
      it throws. */
  function WithJson(data: Payload, node: Node, parse: string -> Option<Payload>): (r: Payload)
    ensures forall k :: k in r <==> k in data || (JsonOf(node, parse).Some? && k in JsonOf(node, parse).value)
  {
    match JsonOf(node, parse)
    case None => data
    case Some(extra) => data + extra
  }

  /** The parsed `wx-data` object, if any. */
  function JsonOf(node: Node, parse: string -> Option<Payload>): Option<Payload> {
    if "wx-data" in node.attrs && Truthy(node.attrs["wx-data"]) then parse(node.attrs["wx-data"])
    else None
  }

  /** An attribute the full runtime copies into the payload. */
  predicate IsDataAttr(name: string) {
    StartsWith(name, "data-") && !StartsWith(name, "data-wsx")
  }

  /** The names of the copied attributes with the `data-` prefix removed. */
  function DataKeys(attrs: map<string, string>): (ks: set<string>)
    ensures forall k :: k in ks <==> ("data-" + k) in attrs && IsDataAttr("data-" + k)
  {
    var ks := set name | name in attrs && IsDataAttr(name) :: name[5..];
    assert forall name | name in attrs && IsDataAttr(name) :: "data-" + name[5..] == name;
    assert forall k :: ("data-" + k)[5..] == k;
    ks
  }

  /** The `data-*` attributes not starting with `data-wsx`, keyed by the
      name with the `data-` prefix removed. */
  function DataAttributes(attrs: map<string, string>): (r: Payload)
    ensures forall k :: k in r <==> ("data-" + k) in attrs && IsDataAttr("data-" + k)
    ensures forall k | k in r :: r[k] == attrs["data-" + k]
  {
    map k | k in DataKeys(attrs) :: attrs["data-" + k]
  }

  /** The runtime's own bookkeeping attributes never reach the payload. */
  lemma BookkeepingNotSent(attrs: map<string, string>)
    ensures "wsx-triggered" !in DataAttributes(attrs)
    ensures "wsx-last-value" !in DataAttributes(attrs)
  {
    assert StartsWith("data-wsx-triggered", "data-wsx");
    assert StartsWith("data-wsx-last-value", "data-wsx");
  }

  /** Writing one of the runtime's own `data-wsx…` attributes does not
      change the payload the element produces. */
  lemma BookkeepingWriteNotSent(full: bool, node: Node, parse: string -> Option<Payload>, name: string, v: string)
    requires StartsWith(name, "data-wsx")
    ensures Build(full, node.(attrs := node.attrs[name := v]), parse) == Build(full, node, parse)
  {
    var node' := node.(attrs := node.attrs[name := v]);
    assert "name" != name by {
      assert name[0] == 'd';
    }
    assert "wx-data" != name by {
      assert name[0] == 'd';
    }
    assert ElementData(node') == ElementData(node);
    assert JsonOf(node', parse) == JsonOf(node, parse);
    assert DataAttributes(node'.attrs) == DataAttributes(node.attrs);
  }

  /** The payload a variant of the runtime builds for element `node`. */
  function Build(full: bool, node: Node, parse: string -> Option<Payload>): (r: Payload)
  {
    var data := WithJson(ElementData(node), node, parse);
    if full then data + DataAttributes(node.attrs) else data
  }

  /** Precedence of the three sources, key by key: a `data-*` attribute (full
      runtime only) beats `wx-data`, which beats the element's own data; a
      key none of them has is absent. */
  lemma BuildPrecedence(full: bool, node: Node, parse: string -> Option<Payload>, k: string)
    ensures var r := Build(full, node, parse);
      var json := JsonOf(node, parse);
      var own := ElementData(node);
      if full && ("data-" + k) in node.attrs && IsDataAttr("data-" + k) then
        k in r && r[k] == node.attrs["data-" + k]
      else if json.Some? && k in json.value then
        k in r && r[k] == json.value[k]
      else if k in own then
        k in r && r[k] == own[k]
      else
        k !in r
  {
  }
}
