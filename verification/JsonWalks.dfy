/** The loops that build and read JSON arrays, each proved against the tree form of `Json`. */
module JsonWalks {
  import opened Schema
  import opened Elements
  import opened Json

  /** Search of a named item among the objects of an array. */
  method FindItem(items: seq<Json>, name: string) returns (r: Lookup)
    ensures r == GetItem(items, name)
  {
    var j := 0;
    while j < |items|
      invariant 0 <= j <= |items|
      invariant GetItem(items[j..], name) == GetItem(items, name)
    {
      if items[j].JObject? {
        var here := GetMember(items[j].members, name);
        if here.Found? {
          return here;
        }
      }
      j := j + 1;
    }
    return Missing;
  }

  /** Enumeration table, searched by name. */
  method FindName(table: seq<(string, int)>, name: string) returns (k: nat)
    ensures k == NameCode(table, name)
  {
    k := 0;
    while k < |table| && table[k].0 != name
      invariant k <= |table| && forall j | 0 <= j < k :: table[j].0 != name
    {
      k := k + 1;
    }
  }

  /** Enumeration table, searched by value. */
  method FindCode(table: seq<(string, int)>, code: int) returns (k: nat)
    ensures k == CodeName(table, code)
  {
    k := 0;
    while k < |table| && table[k].1 != code
      invariant k <= |table| && forall j | 0 <= j < k :: table[j].1 != code
    {
      k := k + 1;
    }
  }

  /** A sequence appends field after field and gives up at the first that fails. */
  method FieldsToJson(c: Cfg, v: Value) returns (ms: Members)
    requires c.Sequence? && v.Fields? && WellFormed(c) && Fits(c, v)
    ensures ms == EncodeFields(c, v, 0)
  {
    var objects: seq<Json>, i := [], 0;
    while i < |c.fields|
      invariant 0 <= i <= |c.fields|
      invariant
        var rest := EncodeFields(c, v, i);
        EncodeFields(c, v, 0) == if rest.Broken? then Broken else Members(objects + rest.objects)
    {
      var one := EncodeField(c.fields[i], v.fs[i]);
      if one.Broken? {
        return Broken;
      }
      ghost var later := EncodeFields(c, v, i + 1);
      assert later.Members? ==> objects + (one.objects + later.objects) == (objects + one.objects) + later.objects;
      objects := objects + one.objects;
      i := i + 1;
    }
    return Members(objects);
  }

  /** Field after field, each looked up by its own name. */
  method FieldsFromJson(c: Cfg, items: seq<Json>) returns (r: Outcome<Value>)
    requires c.Sequence?
    ensures r == DecodeItem(c, JArray(items))
  {
    var fs: seq<Value>, i := [], 0;
    while i < |c.fields|
      invariant 0 <= i == |fs| <= |c.fields|
      invariant forall j | 0 <= j < i :: DecodeField(c.fields[j], items) == Ok(fs[j])
    {
      var one := DecodeField(c.fields[i], items);
      if one.Err? {
        return Err;
      }
      fs := fs + [one.value];
      i := i + 1;
    }
    DecodedFieldByField(c, items, fs);
    return Ok(Fields(fs));
  }

  /** A list appends item after item; a null item cannot be appended. */
  method ItemsToJson(c: Cfg, v: Value) returns (e: Encoded)
    requires c.List? && v.Items? && WellFormed(c) && Fits(c, v)
    ensures e == EncodeItem(c, v)
  {
    var js: seq<Json>, i := [], 0;
    while i < |v.items|
      invariant 0 <= i == |js| <= |v.items|
      invariant forall j | 0 <= j < i :: EncodeItem(c.elem, v.items[j]) == Item(js[j])
    {
      var one := EncodeItem(c.elem, v.items[i]);
      if !one.Item? {
        return Failed;
      }
      js := js + [one.json];
      i := i + 1;
    }
    assert forall j | 0 <= j < |js| :: EncodeItem(c.elem, v.items[j]).Item?;
    assert js == EncodeItem(c, v).json.items;
    return Item(JArray(js));
  }

  /** An empty array leaves the list null. */
  method ItemsFromJson(c: Cfg, js: seq<Json>) returns (r: Outcome<Value>)
    requires c.List?
    ensures r == DecodeItem(c, JArray(js))
  {
    if |js| == 0 {
      return Ok(Null);
    }
    var vs: seq<Value>, i := [], 0;
    while i < |js|
      invariant 0 <= i == |vs| <= |js|
      invariant forall j | 0 <= j < i :: DecodeItem(c.elem, js[j]) == Ok(vs[j])
    {
      var one := DecodeItem(c.elem, js[i]);
      if one.Err? {
        return Err;
      }
      vs := vs + [one.value];
      i := i + 1;
    }
    DecodedItemByItem(c, js, vs);
    return Ok(Items(vs));
  }

  /** A choice takes the first alternative whose name is present, and stays as it was made when
      none is. */
  method ChoiceFromJson(c: Cfg, items: seq<Json>) returns (r: Outcome<Value>)
    requires c.Choice?
    ensures r == DecodeField(c, items)
  {
    var i := 0;
    while i < |c.alts|
      invariant 0 <= i <= |c.alts|
      invariant forall j | 0 <= j < i :: GetItem(items, c.alts[j].name).Missing?
    {
      var item := FindItem(items, c.alts[i].name);
      if item.Found? {
        assert FirstAlternative(c.alts, items) == i;
        var one := DecodeItem(c.alts[i], item.json);
        return if one.Ok? then Ok(Alt(i, one.value)) else Err;
      }
      i := i + 1;
    }
    assert FirstAlternative(c.alts, items) == |c.alts|;
    return Ok(Alt(0, Null));
  }
}
