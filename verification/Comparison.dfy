/** What the engine's own comparison tells apart. It never looks at the number of a choice's
    alternative. */
module Comparison {
  import opened Schema

  /** Some value of `a` compares equal to some value of `b`. */
  predicate Confusable(a: Cfg, b: Cfg) {
    match a
    case Leaf(_, _, t) => b.Leaf? && SameInterface(t, b.leafType)
    case Sequence(_, _, _) => b.Sequence?
    case List(_, _, _, _) => b.List?
    case Choice(_, _, _) => b.Choice?
    case Stub(_, _) => true
  }

  /** No choice inside has two different alternatives that can be confused. */
  predicate Discerning(c: Cfg)
    decreases c
  {
    match c
    case Sequence(_, _, fields) => forall i | 0 <= i < |fields| :: Discerning(fields[i])
    case List(_, _, _, elem) => Discerning(elem)
    case Choice(_, _, alts) =>
      && (forall i | 0 <= i < |alts| :: Discerning(alts[i]))
      && (forall i, j | 0 <= i < |alts| && 0 <= j < |alts| && i != j :: !Confusable(alts[i], alts[j]))
    case _ => true
  }

  lemma EqualImpliesConfusable(a: Cfg, x: Value, b: Cfg, y: Value)
    requires Fits(a, x) && Fits(b, y) && Compare(a, x, b, y)
    ensures Confusable(a, b)
  {
  }

  /** On discerning schemas only equal values compare equal. */
  lemma {:induction false} DiscerningTells(c: Cfg, x: Value, y: Value)
    requires Discerning(c) && Fits(c, x) && Fits(c, y) && Compare(c, x, c, y)
    ensures x == y
    decreases c
  {
    match c
    case Sequence(_, _, fields) =>
      if x.Fields? {
        forall i | 0 <= i < |fields| ensures x.fs[i] == y.fs[i] {
          DiscerningTells(fields[i], x.fs[i], y.fs[i]);
        }
        assert x.fs == y.fs;
      }
    case List(_, _, _, elem) =>
      if x.Items? {
        forall i | 0 <= i < |x.items| ensures x.items[i] == y.items[i] {
          DiscerningTells(elem, x.items[i], y.items[i]);
        }
        assert x.items == y.items;
      }
    case Choice(_, _, alts) =>
      EqualImpliesConfusable(alts[x.id], x.data, alts[y.id], y.data);
      DiscerningTells(alts[x.id], x.data, y.data);
    case _ =>
  }

  /** A structure that is zeroed but for one field. */
  function OnlyField(fields: seq<Cfg>, i: nat, x: Value): (v: Value)
    requires i < |fields|
    ensures v.Fields? && |v.fs| == |fields| && v.fs[i] == x
    ensures forall j | 0 <= j < |fields| && j != i :: v.fs[j] == Zero(fields[j])
  {
    Fields(seq(|fields|, j requires 0 <= j < |fields| => if j == i then x else Zero(fields[j])))
  }

  /** Every other schema has two values that it takes for one. */
  lemma {:induction false} Confused(c: Cfg) returns (x: Value, y: Value)
    requires WellFormed(c) && !Discerning(c)
    ensures Fits(c, x) && Fits(c, y) && x != y && Compare(c, x, c, y)
    decreases c
  {
    match c
    case Sequence(_, _, fields) =>
      var i :| 0 <= i < |fields| && !Discerning(fields[i]);
      var u, v := Confused(fields[i]);
      x, y := OnlyField(fields, i, u), OnlyField(fields, i, v);
      forall j | 0 <= j < |fields|
        ensures Fits(fields[j], x.fs[j]) && Fits(fields[j], y.fs[j])
        ensures Compare(fields[j], x.fs[j], fields[j], y.fs[j])
      {
        if j != i {
          CompareIsReflexive(fields[j], Zero(fields[j]));
        }
      }
    case List(_, _, _, elem) =>
      var u, v := Confused(elem);
      x, y := Items([u]), Items([v]);
      assert x.items[0] == u && y.items[0] == v;
    case Choice(_, _, alts) =>
      if i :| 0 <= i < |alts| && !Discerning(alts[i]) {
        var u, v := Confused(alts[i]);
        x, y := Alt(i, u), Alt(i, v);
      } else {
        var i, j :| 0 <= i < |alts| && 0 <= j < |alts| && i != j && Confusable(alts[i], alts[j]);
        x, y := Alt(i, Null), Alt(j, Null);
      }
  }

  /** Comparing equal is being equal. */
  ghost predicate ComparesExactly(c: Cfg) {
    forall x, y | Fits(c, x) && Fits(c, y) :: Compare(c, x, c, y) <==> x == y
  }

  /** Comparison is equality exactly on discerning schemas. */
  lemma {:induction false} ExactExactlyWhenDiscerning(c: Cfg)
    requires WellFormed(c)
    ensures ComparesExactly(c) <==> Discerning(c)
  {
    if Discerning(c) {
      forall x, y | Fits(c, x) && Fits(c, y) ensures Compare(c, x, c, y) <==> x == y {
        CompareIsReflexive(c, x);
        if Compare(c, x, c, y) {
          DiscerningTells(c, x, y);
        }
      }
    } else {
      var x, y := Confused(c);
      assert Compare(c, x, c, y) && x != y;
    }
  }

  // ---------------------------------------------------------------- across configurations

  datatype Kind = Flags | Numbers | Texts | Codes | Tags | Times

  function KindOf(t: LeafType): Kind {
    match t
    case BoolType => Flags
    case NumberType(_, _) => Numbers
    case StringType => Texts
    case EnumType(_) => Codes
    case TagType => Tags
    case TimeType(_) => Times
  }

  /** The same shape under any names and flags; leaves of one kind, whatever their width or table. */
  predicate Alike(a: Cfg, b: Cfg)
    decreases a
  {
    match a
    case Leaf(_, _, t) => b.Leaf? && KindOf(t) == KindOf(b.leafType)
    case Sequence(_, _, fields) =>
      b.Sequence? && |fields| == |b.fields| && forall i | 0 <= i < |fields| :: Alike(fields[i], b.fields[i])
    case List(_, _, _, elem) => b.List? && Alike(elem, b.elem)
    case _ => false
  }

  /** Between configurations of one shape comparison is equality of the values. */
  lemma {:induction false} AlikeComparesExactly(a: Cfg, x: Value, b: Cfg, y: Value)
    requires Alike(a, b) && Fits(a, x) && Fits(b, y)
    ensures Compare(a, x, b, y) <==> x == y
    decreases a
  {
    match a
    case Leaf(_, _, _) =>
    case Sequence(_, _, fields) =>
      if x.Fields? && y.Fields? {
        forall i | 0 <= i < |fields| ensures Compare(fields[i], x.fs[i], b.fields[i], y.fs[i]) <==> x.fs[i] == y.fs[i] {
          AlikeComparesExactly(fields[i], x.fs[i], b.fields[i], y.fs[i]);
        }
        assert x == y <==> forall i | 0 <= i < |fields| :: x.fs[i] == y.fs[i];
      }
    case List(_, _, _, elem) =>
      if x.Items? && y.Items? && |x.items| == |y.items| {
        forall i | 0 <= i < |x.items|
          ensures Compare(elem, x.items[i], b.elem, y.items[i]) <==> x.items[i] == y.items[i]
        {
          AlikeComparesExactly(elem, x.items[i], b.elem, y.items[i]);
        }
        assert x == y <==> forall i | 0 <= i < |x.items| :: x.items[i] == y.items[i];
      }
  }

  /** Leaves of different kinds never compare equal, not even null ones, nor a leaf and a structure,
      nor structures with different numbers of fields once they are allocated. */
  lemma OthersCompareUnequal(a: Cfg, x: Value, b: Cfg, y: Value)
    requires Fits(a, x) && Fits(b, y) && !a.Stub?
    requires
      || (a.Leaf? && b.Leaf? && KindOf(a.leafType) != KindOf(b.leafType))
      || a.Leaf? != b.Leaf? || a.Sequence? != b.Sequence?
      || (a.Sequence? && b.Sequence? && |a.fields| != |b.fields| && x.Fields?)
    ensures !Compare(a, x, b, y)
  {
  }

  /** Two alternatives of one type: null or not, the same content compares equal on either. */
  lemma ChoiceCompareIsCoarser(v: Value)
    requires Fits(Leaf("a", 0, BoolType), v)
    ensures
      var c := Choice("", 0, [Leaf("a", 0, BoolType), Leaf("b", 0, BoolType)]);
      Fits(c, Alt(0, v)) && Fits(c, Alt(1, v)) && Compare(c, Alt(0, v), c, Alt(1, v))
  {
  }
}
