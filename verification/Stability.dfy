/** Exactly which schemas the keyed merge is exact on: what makes an identifier unsafe, and the
    values that show it. */
module Stability {
  import opened Chrono
  import opened Schema
  import opened Elements
  import opened KeyedMerge
  import opened Keys

  /** Everything the schema macros can declare without choices: leaves with at least one value,
      sequences, stubs, and lists without a flag whose items are not lists. */
  predicate Regular(c: Cfg)
    ensures Regular(c) ==> NoChoice(c)
    decreases c
  {
    match c
    case Leaf(_, _, t) => t.NumberType? ==> t.lo <= t.hi
    case Sequence(_, _, fields) => forall i | 0 <= i < |fields| :: Regular(fields[i])
    case List(_, _, keyed, elem) => !Flagged(c) && !elem.List? && Regular(elem)
    case Choice(_, _, _) => false
    case Stub(_, _) => true
  }

  /** Some value of a leaf. */
  function Sample(t: LeafType): (p: Payload)
    requires t.NumberType? ==> t.lo <= t.hi
    ensures PayloadFits(t, p)
  {
    match t
    case BoolType => BoolOf(true)
    case NumberType(lo, _) => NumberOf(lo)
    case StringType => StringOf("")
    case EnumType(_) => EnumOf(0)
    case TagType => TagSet
    case TimeType(form) =>
      match form
      case DurationForm => DurationOf(ZERO_DURATION)
      case DateForm => DateOf(Date(0, 1, 1))
      case TimeForm => TimeOf(Time(0, 0, 0))
      case DateTimeForm => DateTimeOf(DateTime(Date(0, 1, 1), Time(0, 0, 0)))
      case AbsoluteOrRelativeForm => MomentOf(Relative(ZERO_DURATION))
  }

  lemma FieldsCanBeNull(c: Cfg)
    requires c.Sequence? && NoChoice(c)
    ensures forall j | 0 <= j < |c.fields| :: Fits(c.fields[j], Null)
  {
    forall j | 0 <= j < |c.fields| ensures Fits(c.fields[j], Null) {
      assert NoChoice(c.fields[j]);
    }
  }

  /** A structure with one field set. */
  function OneField(c: Cfg, i: nat, x: Value): (v: Value)
    requires c.Sequence? && NoChoice(c) && i < |c.fields| && Fits(c.fields[i], x)
    ensures Fits(c, v) && v.Fields? && v.fs[i] == x
    ensures forall j | 0 <= j < |c.fields| && j != i :: v.fs[j] == Null
  {
    FieldsCanBeNull(c);
    Fields(seq(|c.fields|, j requires 0 <= j < |c.fields| => if j == i then x else Null))
  }

  function NoFields(c: Cfg): (v: Value)
    requires c.Sequence? && NoChoice(c)
    ensures Fits(c, v) && v.Fields? && forall j | 0 <= j < |c.fields| :: v.fs[j] == Null
  {
    FieldsCanBeNull(c);
    Fields(seq(|c.fields|, j requires 0 <= j < |c.fields| => Null))
  }

  /** A keyed list whose first item has no identifiers spreads that item over the others. */
  lemma FirstItemSpreads(l: Cfg, x: Value)
    requires l.List? && l.keyed && NoChoice(l) && Fits(l.elem, x) && !HasIdentifiers(l.elem, x)
    requires Fits(l.elem, Null) && WritePartial(l.elem, Null, x) != Null
    ensures var v := Items([x, Null]); Fits(l, v) && WritePartial(l, v, v) != v
  {
    var v := Items([x, Null]);
    assert Fits(l, v);
    assert v.items[0] == x && v.items[1] == Null;
    var w := WritePartial(l, v, v);
    assert w.items[1] == WritePartial(l.elem, Null, x);
  }

  lemma SingleItemMerges(l: Cfg, y: Value)
    requires l.List? && l.keyed && NoChoice(l) && Fits(l.elem, y) && HasIdentifiers(l.elem, y)
    requires IdentifiersMatch(l.elem, y, y) && WritePartial(l.elem, y, y) != y
    ensures var v := Items([y]); Fits(l, v) && WritePartial(l, v, v) != v
  {
    var v := Items([y]);
    assert Fits(l, v) && v.items[0] == y;
    var matches, write := ItemMatcher(l.elem), ItemWriter(l.elem);
    assert WritePartial(l, v, v) == Items(Merge(matches, write, [y], [y]));
    assert matches(y, y) && FirstMatch(matches, [y], y) == 0;
    MergeSnoc(matches, write, [y], [], y);
    assert [] + [y] == [y] && Merge(matches, write, [y], []) == [y];
    assert Merge(matches, write, [y], [y])[0] == write(y, y);
  }

  /** Every schema that is not harmless has a value that changes when written over itself. */
  lemma {:induction false} HarmShows(c: Cfg) returns (v: Value)
    requires Regular(c) && !Harmless(c)
    ensures Fits(c, v) && !v.Null? && WritePartial(c, v, v) != v
    decreases c
  {
    match c
    case Sequence(_, _, fields) =>
      var i :| 0 <= i < |fields| && !Harmless(fields[i]);
      var x := HarmShows(fields[i]);
      v := OneField(c, i, x);
      assert WritePartial(c, v, v).fs[i] == WritePartial(fields[i], x, x);
    case List(_, _, _, elem) =>
      if Flagged(elem) {
        var y := HarmShows(elem);
        WholeMatchIsFixed(elem, y, y);
        SingleItemMerges(c, y);
        v := Items([y]);
      } else {
        var x := if elem.Leaf? then Datum(Sample(elem.leafType)) else NoFields(elem);
        FirstItemSpreads(c, x);
        v := Items([x, Null]);
      }
  }

  lemma NullMatchesNull(c: Cfg)
    requires Regular(c) && !c.Stub?
    ensures Fits(c, Null) && IdentifiersMatch(c, Null, Null) && !HasIdentifiers(c, Null)
  {
  }

  /** Every unsafe schema has a value that carries identifiers, matches itself, and no longer
      does once it has been written over itself. */
  lemma {:induction false} UnsafeKeyLosesMatch(c: Cfg) returns (v: Value)
    requires Regular(c) && !KeySafe(c)
    ensures Fits(c, v) && HasIdentifiers(c, v)
    ensures IdentifiersMatch(c, v, v) && !IdentifiersMatch(c, WritePartial(c, v, v), v)
    decreases c
  {
    match c
    case Sequence(_, _, fields) =>
      if Flagged(c) {
        v := HarmShows(c);
        CompareIsReflexive(c, v);
        CompareIsEquality(c, WritePartial(c, v, v), v);
      } else {
        var i :| 0 <= i < |fields| && !KeySafe(fields[i]);
        var x := UnsafeKeyLosesMatch(fields[i]);
        v := OneField(c, i, x);
        forall j | 0 <= j < |fields| ensures IdentifiersMatch(fields[j], v.fs[j], v.fs[j]) {
          if j != i {
            NullMatchesNull(fields[j]);
          }
        }
        assert WritePartial(c, v, v).fs[i] == WritePartial(fields[i], x, x);
      }
  }

  /** The two passes of the merge over items of this schema. */
  ghost function Counted(elem: Cfg, items: seq<Value>, src: seq<Value>): nat
    requires NoChoice(elem)
  {
    |Merge(ItemMatcher(elem), ItemWriter(elem), items, src)|
  }

  ghost function Filled(elem: Cfg, items: seq<Value>, src: seq<Value>): seq<Value>
    requires NoChoice(elem)
  {
    SecondPass(ItemMatcher(elem), ItemWriter(elem), |items|, items, src)
  }

  /** A list that holds that value, merged with two copies of it: the first pass counts one entry
      and allocates nothing, the second pass appends an entry behind the buffer. */
  lemma UnsafeKeyOverrunsBuffer(elem: Cfg) returns (v: Value)
    requires Regular(elem) && !KeySafe(elem)
    ensures Fits(elem, v) && HasIdentifiers(elem, v)
    ensures Counted(elem, [v], [v, v]) == 1 && |Filled(elem, [v], [v, v])| == 2
  {
    v := UnsafeKeyLosesMatch(elem);
    TwoSourcesOnOneItem(ItemMatcher(elem), ItemWriter(elem), v, v, v);
  }

  /** On all lists of items the second pass fills exactly what the first pass counted. */
  ghost predicate MergeIsExact(elem: Cfg)
    requires NoChoice(elem)
  {
    forall items: seq<Value>, src: seq<Value> | AllFit(elem, items) && AllFit(elem, src) ::
      |Filled(elem, items, src)| == Counted(elem, items, src)
  }

  /** The merge is exact exactly on schemas with safe keys, and then the second pass computes the
      merged list. */
  lemma {:induction false} ExactExactlyWhenSafe(elem: Cfg)
    requires Regular(elem)
    ensures MergeIsExact(elem) <==> KeySafe(elem)
    ensures KeySafe(elem) ==>
      forall items, src :: Filled(elem, items, src) == Merge(ItemMatcher(elem), ItemWriter(elem), items, src)
  {
    if KeySafe(elem) {
      SafeItemsAreStable(elem);
      forall items: seq<Value>, src: seq<Value>
        ensures Filled(elem, items, src) == Merge(ItemMatcher(elem), ItemWriter(elem), items, src)
      {
        SecondPassIsMerge(ItemMatcher(elem), ItemWriter(elem), items, src);
      }
    } else {
      var v := UnsafeKeyOverrunsBuffer(elem);
      var items, src := [v], [v, v];
      assert AllFit(elem, items) && AllFit(elem, src);
      assert |Filled(elem, items, src)| != Counted(elem, items, src);
    }
  }
}
