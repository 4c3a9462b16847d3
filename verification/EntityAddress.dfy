/** A shipped schema the keyed merge is not exact on: the description of an entity, identified by an
    address that holds a keyed list of plain numbers. */
module EntityAddress {
  import opened Schema
  import opened Elements
  import opened KeyedMerge
  import opened Keys
  import opened Stability
  import opened Received

  const NUMBER := Leaf("", 0, NumberType(0, 0xffff_ffff))
  const ADDRESS := Sequence("entityAddress", 1, [Leaf("device", 0, StringType), List("entity", 0, true, NUMBER)])

  /** With the lookup tables of the two enumerations. */
  function Description(types: seq<(string, int)>, changes: seq<(string, int)>): Cfg {
    Sequence("", 0, [
      ADDRESS, Leaf("entityType", 0, EnumType(types)), Leaf("lastStateChange", 0, EnumType(changes)),
      Leaf("minimumTrustLevel", 0, StringType), Leaf("label", 0, StringType), Leaf("description", 0, StringType)])
  }

  /** A list of plain values, the first two different: the first is spread over the second. */
  lemma PlainListStirs(l: Cfg, x: Value, y: Value, rest: seq<Value>)
    requires l.List? && l.keyed && Regular(l) && l.elem.Leaf? && !Flagged(l.elem)
    requires IsItem(l.elem, x) && IsItem(l.elem, y) && x != y && AllItems(l.elem, rest)
    ensures var v := Items([x, y] + rest); IsItem(l, v) && WritePartial(l, v, v) != v
  {
    var v := Items([x, y] + rest);
    forall i | 0 <= i < |v.items| ensures IsItem(l.elem, v.items[i]) {
      if i >= 2 {
        assert IsItem(l.elem, rest[i - 2]);
      }
    }
    assert v.items[0] == x && v.items[1] == y;
    assert WritePartial(l, v, v).items[1] == WritePartial(l.elem, y, x) == x;
  }

  /** A structure in which one field changes when written over itself changes too. */
  lemma FieldStirsAll(c: Cfg, i: nat, v: Value)
    requires c.Sequence? && Regular(c) && i < |c.fields| && IsItem(c, v)
    requires WritePartial(c.fields[i], v.fs[i], v.fs[i]) != v.fs[i]
    ensures WritePartial(c, v, v) != v
  {
    assert WritePartial(c, v, v).fs[i] == WritePartial(c.fields[i], v.fs[i], v.fs[i]);
  }

  /** An item whose only content is a key that changes when written over itself, received twice for
      a list that has it: one entry counted, two filled. */
  lemma StirredKeyOverruns(elem: Cfg, i: nat, key: Value)
    requires elem.Sequence? && !Flagged(elem) && Regular(elem) && !HasStub(elem.fields) && i < |elem.fields|
    requires elem.fields[i].Sequence? && Flagged(elem.fields[i]) && IsItem(elem.fields[i], key)
    requires WritePartial(elem.fields[i], key, key) != key
    ensures
      var v := OneField(elem, i, key);
      IsItem(elem, v) && Counted(elem, [v], [v, v]) == 1 && |Filled(elem, [v], [v, v])| == 2
  {
    var c := elem.fields[i];
    CompareIsReflexive(c, key);
    CompareIsEquality(c, WritePartial(c, key, key), key);
    OneFieldIsItem(elem, i, key);
    OneFieldLosesMatch(elem, i, key);
    var v := OneField(elem, i, key);
    TwoSourcesOnOneItem(ItemMatcher(elem), ItemWriter(elem), v, v, v);
  }

  lemma AddressIsRegular()
    ensures Regular(ADDRESS) && ADDRESS.fields[1] == List("entity", 0, true, NUMBER) && Regular(ADDRESS.fields[1])
  {
    assert ADDRESS.fields[0] == Leaf("device", 0, StringType);
  }

  lemma DescriptionIsRegular(types: seq<(string, int)>, changes: seq<(string, int)>)
    ensures
      var c := Description(types, changes);
      Regular(c) && !HasStub(c.fields) && !Flagged(c) && c.fields[0] == ADDRESS
  {
    AddressIsRegular();
  }

  /** Any address whose first two numbers differ, such as [1, 2]. */
  lemma EntityAddressOverruns(
    types: seq<(string, int)>, changes: seq<(string, int)>, device: Value, x: Value, y: Value, rest: seq<Value>)
    requires Fits(Leaf("device", 0, StringType), device)
    requires IsItem(NUMBER, x) && IsItem(NUMBER, y) && x != y && AllItems(NUMBER, rest)
    ensures
      var elem, key := Description(types, changes), Fields([device, Items([x, y] + rest)]);
      && Regular(elem) && elem.fields[0] == ADDRESS && IsItem(ADDRESS, key)
      && var v := OneField(elem, 0, key);
         IsItem(elem, v) && Counted(elem, [v], [v, v]) == 1 && |Filled(elem, [v], [v, v])| == 2
  {
    var elem, key := Description(types, changes), Fields([device, Items([x, y] + rest)]);
    AddressIsRegular();
    DescriptionIsRegular(types, changes);
    PlainListStirs(ADDRESS.fields[1], x, y, rest);
    assert key.fs[0] == device && key.fs[1] == Items([x, y] + rest);
    assert Fits(ADDRESS, key) && Receivable(ADDRESS, key);
    FieldStirsAll(ADDRESS, 1, key);
    StirredKeyOverruns(elem, 0, key);
  }
}
