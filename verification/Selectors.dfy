/** Selector matching. */
module Selectors {
  import opened Schema
  import opened Comparison

  /** Position of the first field with the given name, or the length. */
  function FieldIndex(fields: seq<Cfg>, name: string): (k: nat)
    ensures k <= |fields|
    ensures k < |fields| ==> fields[k].name == name
    ensures forall j | 0 <= j < k :: fields[j].name != name
  {
    if fields == [] || fields[0].name == name then 0 else 1 + FieldIndex(fields[1..], name)
  }

  /** One selector field against an item: null selects anything, and so does a selector whose
      name the item does not have. */
  predicate SelectorFieldMatches(c: Cfg, v: Value, sc: Cfg, s: Value, i: nat)
    requires c.Sequence? && sc.Sequence? && v.Fields? && s.Fields?
    requires Fits(c, v) && Fits(sc, s) && i < |sc.fields|
  {
    var k := FieldIndex(c.fields, sc.fields[i].name);
    IsNull(sc.fields[i], s.fs[i]) || k == |c.fields| || Compare(c.fields[k], v.fs[k], sc.fields[i], s.fs[i])
  }

  predicate SelectorsMatch(c: Cfg, v: Value, sc: Cfg, s: Value)
    requires c.Sequence? && Fits(c, v) && Fits(sc, s)
  {
    sc.Sequence? &&
    (s.Null? || (v.Fields? && forall i | 0 <= i < |sc.fields| :: SelectorFieldMatches(c, v, sc, s, i)))
  }

  predicate DistinctNames(fields: seq<Cfg>) {
    forall i, j | 0 <= i < j < |fields| :: fields[i].name != fields[j].name
  }

  /** Which items a selector picks: those where every selector field that is not null compares
      equal to the data field of its name, wherever that stands. */
  lemma {:induction false} SelectorsMatchByName(c: Cfg, v: Value, sc: Cfg, s: Value)
    requires c.Sequence? && DistinctNames(c.fields) && WellFormed(sc) && Fits(c, v) && Fits(sc, s)
    ensures SelectorsMatch(c, v, sc, s) <==>
      sc.Sequence? &&
      (s == Null ||
       (v.Fields? &&
        forall i, k | 0 <= i < |sc.fields| && 0 <= k < |c.fields| && sc.fields[i].name == c.fields[k].name ::
          NullData(s.fs[i]) || Compare(c.fields[k], v.fs[k], sc.fields[i], s.fs[i])))
  {
    if sc.Sequence? && s.Fields? && v.Fields? {
      forall i, k | 0 <= i < |sc.fields| && 0 <= k < |c.fields| && sc.fields[i].name == c.fields[k].name
        ensures SelectorFieldMatches(c, v, sc, s, i) <==>
          NullData(s.fs[i]) || Compare(c.fields[k], v.fs[k], sc.fields[i], s.fs[i])
      {
        NullAndEmptyValues(sc.fields[i], s.fs[i]);
        assert FieldIndex(c.fields, sc.fields[i].name) == k;
      }
      forall i | 0 <= i < |sc.fields| && forall k | 0 <= k < |c.fields| :: sc.fields[i].name != c.fields[k].name
        ensures SelectorFieldMatches(c, v, sc, s, i)
      {
      }
    }
  }

  /** Where the selector's fields have the shape of the data fields they name, comparing equal is
      being equal. */
  lemma SelectorsMatchIsEquality(c: Cfg, v: Value, sc: Cfg, s: Value)
    requires c.Sequence? && DistinctNames(c.fields) && WellFormed(sc) && sc.Sequence?
    requires Fits(c, v) && Fits(sc, s) && v.Fields? && s.Fields?
    requires forall i, k | 0 <= i < |sc.fields| && 0 <= k < |c.fields| && sc.fields[i].name == c.fields[k].name ::
      Alike(c.fields[k], sc.fields[i])
    ensures SelectorsMatch(c, v, sc, s) <==>
      forall i, k | 0 <= i < |sc.fields| && 0 <= k < |c.fields| && sc.fields[i].name == c.fields[k].name ::
        NullData(s.fs[i]) || v.fs[k] == s.fs[i]
  {
    SelectorsMatchByName(c, v, sc, s);
    forall i, k | 0 <= i < |sc.fields| && 0 <= k < |c.fields| && sc.fields[i].name == c.fields[k].name
      ensures Compare(c.fields[k], v.fs[k], sc.fields[i], s.fs[i]) <==> v.fs[k] == s.fs[i]
    {
      AlikeComparesExactly(c.fields[k], v.fs[k], sc.fields[i], s.fs[i]);
    }
  }

  /** A selector that names no field of the data, or is null wherever it does, picks every item. */
  lemma UnknownSelectorsPickAll(c: Cfg, v: Value, sc: Cfg, s: Value)
    requires c.Sequence? && sc.Sequence? && WellFormed(sc) && Fits(c, v) && Fits(sc, s) && v.Fields?
    requires s.Fields? ==>
      forall i | 0 <= i < |sc.fields| ::
        NullData(s.fs[i]) || forall k | 0 <= k < |c.fields| :: sc.fields[i].name != c.fields[k].name
    ensures SelectorsMatch(c, v, sc, s)
  {
    if s.Fields? {
      forall i | 0 <= i < |sc.fields| ensures SelectorFieldMatches(c, v, sc, s, i) {
        NullAndEmptyValues(sc.fields[i], s.fs[i]);
      }
    }
  }

  /** Matching data against data of the same schema: every non-null field is equal. */
  lemma {:induction false} MatchDataIsFieldEquality(c: Cfg, v: Value, s: Value)
    requires c.Sequence? && NoChoice(c) && Fits(c, v) && Fits(c, s)
    requires DistinctNames(c.fields)
    requires s.Fields?
    ensures SelectorsMatch(c, v, c, s)
       <==> v.Fields? && forall i | 0 <= i < |c.fields| :: s.fs[i].Null? || v.fs[i] == s.fs[i]
  {
    if v.Fields? {
      forall i | 0 <= i < |c.fields|
        ensures SelectorFieldMatches(c, v, c, s, i) <==> s.fs[i].Null? || v.fs[i] == s.fs[i]
      {
        assert FieldIndex(c.fields, c.fields[i].name) == i;
        CompareIsEquality(c.fields[i], v.fs[i], s.fs[i]);
      }
    }
  }

  /** The selection a selector makes among list items. */
  function SelectorOf(elem: Cfg, sc: Cfg, s: Value): Value -> bool
    requires elem.Sequence? && Fits(sc, s)
  {
    v => Fits(elem, v) && SelectorsMatch(elem, v, sc, s)
  }
}
