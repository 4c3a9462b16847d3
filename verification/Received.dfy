/** The keyed merge on values as they are received: no list is empty and no list item is null
    (unless an enumeration name is unknown). Fewer values than `Stability` looks at, so more
    schemas are exact on them. */
module Received {
  import opened Chrono
  import opened Schema
  import opened Elements
  import opened KeyedMerge
  import opened Keys
  import opened Stability

  /** No list inside is empty or has a null item. */
  predicate Receivable(c: Cfg, v: Value)
    requires Fits(c, v)
    decreases c
  {
    match c
    case Sequence(_, _, fields) => v.Fields? ==> forall i | 0 <= i < |fields| :: Receivable(fields[i], v.fs[i])
    case List(_, _, _, elem) =>
      v.Items? ==> v.items != [] && forall i | 0 <= i < |v.items| :: !v.items[i].Null? && Receivable(elem, v.items[i])
    case _ => true
  }

  /** A received list item. */
  predicate IsItem(c: Cfg, v: Value) {
    Fits(c, v) && !v.Null? && Receivable(c, v)
  }

  predicate AllItems(elem: Cfg, xs: seq<Value>) {
    forall i | 0 <= i < |xs| :: IsItem(elem, xs[i])
  }

  // ---------------------------------------------------------------- the finer condition

  /** The type has one value only. */
  predicate Single(t: LeafType) {
    t.TagType? || (t.NumberType? && t.lo == t.hi)
  }

  /** Content without identifiers, written over an item, leaves it as it is. */
  predicate InertItem(c: Cfg)
    decreases c
  {
    Flagged(c) ||
    match c
    case Leaf(_, _, t) => Single(t)
    case Sequence(_, _, fields) => forall i | 0 <= i < |fields| :: InertField(fields[i])
    case _ => true
  }

  /** The same for a field, which may be null before. */
  predicate InertField(c: Cfg)
    decreases c
  {
    match c
    case List(_, _, keyed, elem) => elem.Stub? || (keyed && !Identifying(elem) && InertItem(elem))
    case Stub(_, _) => true
    case _ => Flagged(c)
  }

  /** A stub keeps the items from matching themselves. */
  predicate Unmatchable(c: Cfg) {
    c.Sequence? && !Flagged(c) && HasStub(c.fields) && Identifying(c)
  }

  /** No received value changes when written over itself. */
  predicate Calm(c: Cfg)
    decreases c
  {
    match c
    case Sequence(_, _, fields) => forall i | 0 <= i < |fields| :: Calm(fields[i])
    case List(_, _, keyed, elem) =>
      keyed ==> elem.Stub? || (Calm(elem) && InertItem(elem) && !Unmatchable(elem))
    case _ => true
  }

  /** Flagged sequences that can match are calm. */
  predicate Sound(c: Cfg)
    decreases c
  {
    match c
    case Sequence(_, _, fields) =>
      if Flagged(c) then Calm(c) else HasStub(fields) || forall i | 0 <= i < |fields| :: Sound(fields[i])
    case _ => true
  }

  // ---------------------------------------------------------------- calm schemas

  lemma {:induction false} InertItemKeeps(c: Cfg, y: Value, x: Value)
    requires Regular(c) && !c.List? && InertItem(c) && IsItem(c, y) && IsItem(c, x) && !HasIdentifiers(c, x)
    ensures WritePartial(c, y, x) == y
    decreases c
  {
    if c.Sequence? {
      var w := WritePartial(c, y, x);
      forall i | 0 <= i < |c.fields| ensures w.fs[i] == y.fs[i] {
        InertFieldKeeps(c.fields[i], y.fs[i], x.fs[i]);
      }
      assert w.fs == y.fs;
    }
  }

  lemma {:induction false} InertFieldKeeps(c: Cfg, y: Value, x: Value)
    requires Regular(c) && InertField(c) && Fits(c, y) && Fits(c, x)
    requires Receivable(c, y) && Receivable(c, x) && !HasIdentifiers(c, x)
    ensures WritePartial(c, y, x) == y
    decreases c
  {
    if c.List? && x.Items? && y.Items? && !c.elem.Stub? {
      var z := x.items[0];
      assert IsItem(c.elem, z);
      NoKeyNoIdentifiers(c.elem, z);
      var w := WritePartial(c, y, x);
      forall i | 0 <= i < |y.items| ensures w.items[i] == y.items[i] {
        assert IsItem(c.elem, y.items[i]);
        InertItemKeeps(c.elem, y.items[i], z);
      }
      assert w.items == y.items;
    } else if c.List? && x.Items? {
      assert IsItem(c.elem, x.items[0]);
      if !c.elem.Stub? {
        NoKeyNoIdentifiers(c.elem, x.items[0]);
      }
    }
  }

  /** A received value of a calm schema written over itself is unchanged. */
  lemma {:induction false} CalmKeeps(c: Cfg, v: Value)
    requires Regular(c) && Calm(c) && Fits(c, v) && Receivable(c, v)
    ensures WritePartial(c, v, v) == v
    decreases c, 0
  {
    match c
    case Sequence(_, _, fields) =>
      if v.Fields? {
        var w := WritePartial(c, v, v);
        forall i | 0 <= i < |fields| ensures w.fs[i] == v.fs[i] {
          CalmKeeps(fields[i], v.fs[i]);
        }
        assert w.fs == v.fs;
      }
    case List(_, _, keyed, elem) =>
      if keyed && v.Items? {
        assert AllItems(elem, v.items);
        assert IsItem(elem, v.items[0]);
        if HasIdentifiers(elem, v.items[0]) {
          CalmMerge(elem, v.items);
        } else {
          var w := WritePartial(c, v, v);
          forall i | 0 <= i < |v.items| ensures w.items[i] == v.items[i] {
            assert IsItem(elem, v.items[i]);
            InertItemKeeps(elem, v.items[i], v.items[0]);
          }
          assert w.items == v.items;
        }
      }
    case _ =>
  }

  lemma {:induction false} CalmMerge(elem: Cfg, items: seq<Value>)
    requires Regular(elem) && !elem.List? && Calm(elem) && InertItem(elem) && !Unmatchable(elem)
    requires AllItems(elem, items)
    ensures AllFit(elem, items) && Merge(ItemMatcher(elem), ItemWriter(elem), items, items) == items
    decreases elem, 2
  {
    var matches, write := ItemMatcher(elem), ItemWriter(elem);
    forall j | 0 <= j < |items| ensures Fixed(matches, write, items, items[j]) {
      assert IsItem(elem, items[j]);
      SelfMatches(elem, items[j]);
      assert matches(items[j], items[j]);
      var p := FirstMatch(matches, items, items[j]);
      assert IsItem(elem, items[p]);
      MatchedKeeps(elem, items[p], items[j]);
    }
    MergeFixed(matches, write, items, items);
  }

  lemma SelfMatches(c: Cfg, v: Value)
    requires Regular(c) && InertItem(c) && !Unmatchable(c) && IsItem(c, v)
    ensures IdentifiersMatch(c, v, v)
  {
    CompareIsReflexive(c, v);
    if c.Sequence? && !Flagged(c) && HasIdentifiers(c, v) {
      if !Identifying(c) {
        NoKeyNoIdentifiers(c, v);
      }
      forall i | 0 <= i < |c.fields| ensures IdentifiersMatch(c.fields[i], v.fs[i], v.fs[i]) {
        assert InertField(c.fields[i]);
        CompareIsReflexive(c.fields[i], v.fs[i]);
      }
    }
  }

  lemma {:induction false} MatchedKeeps(c: Cfg, v: Value, s: Value)
    requires Regular(c) && !c.List? && Calm(c) && InertItem(c) && IsItem(c, v) && IsItem(c, s)
    requires IdentifiersMatch(c, v, s)
    ensures WritePartial(c, v, s) == v
    decreases c, 1
  {
    if !HasIdentifiers(c, s) {
      InertItemKeeps(c, v, s);
    } else if c.Leaf? {
      CompareIsEquality(c, v, s);
    } else if Flagged(c) {
      CompareIsEquality(c, v, s);
      CalmKeeps(c, v);
    } else {
      var w := WritePartial(c, v, s);
      forall i | 0 <= i < |c.fields| ensures w.fs[i] == v.fs[i] {
        MatchedFieldKeeps(c.fields[i], v.fs[i], s.fs[i]);
      }
      assert w.fs == v.fs;
    }
  }

  lemma {:induction false} MatchedFieldKeeps(c: Cfg, v: Value, s: Value)
    requires Regular(c) && Calm(c) && InertField(c) && Fits(c, v) && Fits(c, s) && Receivable(c, v) && Receivable(c, s)
    requires IdentifiersMatch(c, v, s)
    ensures WritePartial(c, v, s) == v
    decreases c, 1
  {
    if c.List? || c.Stub? || s.Null? {
      InertFieldKeeps(c, v, s);
    } else {
      CompareIsEquality(c, v, s);
      CalmKeeps(c, v);
    }
  }

  // ---------------------------------------------------------------- received values stay received

  lemma {:induction false} WriteStaysReceivable(c: Cfg, v: Value, s: Value)
    requires Regular(c) && Fits(c, v) && Fits(c, s) && Receivable(c, v) && Receivable(c, s)
    ensures Receivable(c, WritePartial(c, v, s))
    ensures !v.Null? && !c.List? ==> !WritePartial(c, v, s).Null?
    decreases c
  {
    match c
    case Sequence(_, _, fields) =>
      if s.Fields? {
        var w := WritePartial(c, v, s);
        forall i | 0 <= i < |fields| ensures Receivable(fields[i], w.fs[i]) {
          WriteStaysReceivable(fields[i], Slot(fields, v, i), s.fs[i]);
        }
      }
    case List(_, _, keyed, elem) =>
      if keyed && s.Items? {
        ListStaysReceivable(c, v, s);
      }
    case _ =>
  }

  lemma {:induction false} ListStaysReceivable(c: Cfg, v: Value, s: Value)
    requires c.List? && c.keyed && s.Items?
    requires Regular(c) && Fits(c, v) && Fits(c, s) && Receivable(c, v) && Receivable(c, s)
    ensures Receivable(c, WritePartial(c, v, s))
    decreases c, 0
  {
    var elem := c.elem;
    var item := x => IsItem(elem, x);
    forall x, y | item(x) && item(y) ensures item(ItemWriter(elem)(x, y)) && item(WritePartial(elem, x, y)) {
      WriteStaysReceivable(elem, x, y);
    }
    var old_ := if v.Null? then [] else v.items;
    assert AllItems(elem, old_) && AllItems(elem, s.items);
    assert item(s.items[0]);
    var w := WritePartial(c, v, s);
    if HasIdentifiers(elem, s.items[0]) {
      MergeKeeps(item, ItemMatcher(elem), ItemWriter(elem), old_, s.items);
      assert forall i | 0 <= i < |w.items| :: item(w.items[i]);
      MergeIsNotEmpty(ItemMatcher(elem), ItemWriter(elem), old_, s.items);
    } else if v.Items? {
      forall i | 0 <= i < |w.items| ensures item(w.items[i]) {
        assert item(v.items[i]);
      }
    }
  }

  lemma MergeIsNotEmpty<T>(matches: Matcher<T>, write: Writer<T>, items: seq<T>, src: seq<T>)
    requires src != []
    ensures Merge(matches, write, items, src) != []
  {
    if items == [] {
      var n := |src| - 1;
      AimedAtSnoc(matches, items, src[..n], src[n], 0);
      assert src == src[..n] + [src[n]];
    }
  }

  // ---------------------------------------------------------------- schemas that are not calm

  /** Some received item. */
  function SomeItem(c: Cfg): (v: Value)
    requires Regular(c) && (c.Leaf? || c.Sequence?)
    ensures IsItem(c, v)
  {
    if c.Leaf? then Datum(Sample(c.leafType)) else NoFields(c)
  }

  /** Another value of a leaf type that has more than one. */
  function OtherSample(t: LeafType): (p: Payload)
    requires !Single(t) && (t.NumberType? ==> t.lo <= t.hi)
    ensures PayloadFits(t, p) && p != Sample(t)
  {
    match t
    case BoolType => BoolOf(false)
    case NumberType(lo, hi) => NumberOf(hi)
    case StringType => StringOf("a")
    case EnumType(_) => EnumOf(1)
    case TimeType(DurationForm) => DurationOf(ZERO_DURATION.(days := 1))
    case TimeType(DateForm) => DateOf(Date(0, 1, 2))
    case TimeType(TimeForm) => TimeOf(Time(0, 0, 1))
    case TimeType(DateTimeForm) => DateTimeOf(DateTime(Date(0, 1, 1), Time(0, 0, 1)))
    case TimeType(AbsoluteOrRelativeForm) => MomentOf(Relative(ZERO_DURATION.(days := 1)))
  }

  /** What a structure with one field set inherits from it. */
  lemma OneFieldIsItem(c: Cfg, i: nat, x: Value)
    requires c.Sequence? && Regular(c) && i < |c.fields| && Fits(c.fields[i], x) && Receivable(c.fields[i], x)
    ensures
      var v := OneField(c, i, x);
      IsItem(c, v) && (HasIdentifiers(c, v) <==> Flagged(c) || HasIdentifiers(c.fields[i], x))
  {
    var v := OneField(c, i, x);
    forall j | 0 <= j < |c.fields|
      ensures Receivable(c.fields[j], v.fs[j]) && (j != i ==> !HasIdentifiers(c.fields[j], v.fs[j]))
    {
    }
  }

  lemma OneFieldWrite(c: Cfg, i: nat, y: Value, x: Value)
    requires c.Sequence? && Regular(c) && i < |c.fields| && Fits(c.fields[i], x) && Fits(c.fields[i], y)
    ensures WritePartial(c, OneField(c, i, y), OneField(c, i, x)).fs[i] == WritePartial(c.fields[i], y, x)
  {
  }

  /** Some received item with identifiers. */
  lemma {:induction false} SomeKeyedItem(c: Cfg) returns (v: Value)
    requires Regular(c) && Identifying(c)
    ensures IsItem(c, v) && HasIdentifiers(c, v)
    decreases c
  {
    match c
    case Leaf(_, _, t) => v := Datum(Sample(t));
    case Sequence(_, _, fields) =>
      if Flagged(c) {
        v := NoFields(c);
      } else {
        var i :| 0 <= i < |fields| && Identifying(fields[i]);
        var x := SomeKeyedItem(fields[i]);
        v := OneField(c, i, x);
        OneFieldIsItem(c, i, x);
      }
  }

  /** A field that is not inert: content without identifiers that changes it. */
  lemma {:induction false} FieldStirs(c: Cfg) returns (x: Value, y: Value)
    requires Regular(c) && !InertField(c)
    ensures Fits(c, x) && Fits(c, y) && Receivable(c, x) && Receivable(c, y)
    ensures !HasIdentifiers(c, x) && WritePartial(c, y, x) != y
    decreases c
  {
    match c
    case List(_, _, keyed, elem) =>
      if keyed && !Identifying(elem) {
        var z, u := ItemStirs(elem);
        x, y := Items([z]), Items([u]);
        assert x.items[0] == z && y.items[0] == u;
        assert WritePartial(c, y, x).items[0] == WritePartial(elem, u, z);
      } else {
        var z := SomeItem(elem);
        if keyed {
          z := SomeKeyedItem(elem);
        }
        x, y := Items([z]), Null;
        assert x.items[0] == z;
      }
    case Leaf(_, _, _) => x, y := SomeItem(c), Null;
    case Sequence(_, _, _) => x, y := SomeItem(c), Null;
  }

  lemma {:induction false} ItemStirs(c: Cfg) returns (x: Value, y: Value)
    requires Regular(c) && !c.List? && !InertItem(c)
    ensures IsItem(c, x) && IsItem(c, y) && !HasIdentifiers(c, x) && WritePartial(c, y, x) != y
    decreases c
  {
    match c
    case Leaf(_, _, t) => x, y := Datum(Sample(t)), Datum(OtherSample(t));
    case Sequence(_, _, fields) =>
      var i :| 0 <= i < |fields| && !InertField(fields[i]);
      var u, v := FieldStirs(fields[i]);
      x, y := OneField(c, i, u), OneField(c, i, v);
      OneFieldIsItem(c, i, u);
      OneFieldIsItem(c, i, v);
      OneFieldWrite(c, i, v, u);
  }

  /** A list of one item changes when merged into itself, if the item does or matches nothing. */
  lemma OneItemStirs(l: Cfg, y: Value)
    requires l.List? && l.keyed && Regular(l) && IsItem(l.elem, y)
    requires WritePartial(l.elem, y, y) != y || (HasIdentifiers(l.elem, y) && !IdentifiersMatch(l.elem, y, y))
    ensures IsItem(l, Items([y])) && WritePartial(l, Items([y]), Items([y])) != Items([y])
  {
    var v := Items([y]);
    assert Fits(l, v) && v.items[0] == y;
    var matches, write := ItemMatcher(l.elem), ItemWriter(l.elem);
    if HasIdentifiers(l.elem, y) {
      assert WritePartial(l, v, v) == Items(Merge(matches, write, [y], [y]));
      assert FirstMatch(matches, [y], y) == if matches(y, y) then 0 else 1;
      MergeSnoc(matches, write, [y], [], y);
      assert [] + [y] == [y] && Merge(matches, write, [y], []) == [y];
      if matches(y, y) {
        assert Merge(matches, write, [y], [y])[0] == write(y, y);
      }
    } else {
      assert WritePartial(l, v, v).items[0] == WritePartial(l.elem, y, y);
    }
  }

  /** Every schema that is not calm has a received value that changes when written over itself. */
  lemma {:induction false} ValueStirs(c: Cfg) returns (v: Value)
    requires Regular(c) && !Calm(c)
    ensures IsItem(c, v) && WritePartial(c, v, v) != v
    decreases c
  {
    match c
    case Sequence(_, _, fields) =>
      var i :| 0 <= i < |fields| && !Calm(fields[i]);
      var x := ValueStirs(fields[i]);
      v := OneField(c, i, x);
      OneFieldIsItem(c, i, x);
      OneFieldWrite(c, i, x, x);
    case List(_, _, _, elem) =>
      if !InertItem(elem) {
        var x, y := ItemStirs(elem);
        v := Items([x, y]);
        assert v.items[0] == x && v.items[1] == y;
        assert WritePartial(c, v, v).items[1] == WritePartial(elem, y, x);
      } else {
        var y: Value;
        if Calm(elem) {
          y := SomeKeyedItem(elem);
          StubNeverMatches(elem, y, y);
        } else {
          y := ValueStirs(elem);
        }
        OneItemStirs(c, y);
        v := Items([y]);
      }
  }

  lemma {:induction false} UnsoundKeyLosesMatch(c: Cfg) returns (v: Value)
    requires Regular(c) && !Sound(c)
    ensures IsItem(c, v) && HasIdentifiers(c, v)
    ensures IdentifiersMatch(c, v, v) && !IdentifiersMatch(c, WritePartial(c, v, v), v)
    decreases c
  {
    match c
    case Sequence(_, _, fields) =>
      if Flagged(c) {
        v := ValueStirs(c);
        CompareIsReflexive(c, v);
        CompareIsEquality(c, WritePartial(c, v, v), v);
      } else {
        var i :| 0 <= i < |fields| && !Sound(fields[i]);
        var x := UnsoundKeyLosesMatch(fields[i]);
        v := OneField(c, i, x);
        OneFieldIsItem(c, i, x);
        OneFieldLosesMatch(c, i, x);
      }
  }

  lemma OneFieldLosesMatch(c: Cfg, i: nat, x: Value)
    requires c.Sequence? && !Flagged(c) && Regular(c) && !HasStub(c.fields) && i < |c.fields|
    requires Fits(c.fields[i], x) && HasIdentifiers(c.fields[i], x) && IdentifiersMatch(c.fields[i], x, x)
    requires !IdentifiersMatch(c.fields[i], WritePartial(c.fields[i], x, x), x)
    ensures var v := OneField(c, i, x); IdentifiersMatch(c, v, v) && !IdentifiersMatch(c, WritePartial(c, v, v), v)
  {
    var v := OneField(c, i, x);
    forall j | 0 <= j < |c.fields| ensures IdentifiersMatch(c.fields[j], v.fs[j], v.fs[j]) {
      if j != i {
        NullMatchesNull(c.fields[j]);
      }
    }
    OneFieldWrite(c, i, x, x);
  }

  /** A received list and a received source with the same item twice, on which the second pass
      writes behind the buffer the first pass asked for. */
  lemma UnsoundKeyOverrunsBuffer(elem: Cfg) returns (v: Value)
    requires Regular(elem) && !Sound(elem)
    ensures IsItem(elem, v) && Counted(elem, [v], [v, v]) == 1 && |Filled(elem, [v], [v, v])| == 2
  {
    v := UnsoundKeyLosesMatch(elem);
    TwoSourcesOnOneItem(ItemMatcher(elem), ItemWriter(elem), v, v, v);
  }

  // ---------------------------------------------------------------- the exact condition

  /** Matching and writing of received items only. */
  function ReceivedMatcher(elem: Cfg): Matcher<Value>
    requires NoChoice(elem)
  {
    (v: Value, s: Value) => IsItem(elem, v) && IsItem(elem, s) && IdentifiersMatch(elem, v, s)
  }

  function ReceivedWriter(elem: Cfg): Writer<Value>
    requires NoChoice(elem)
  {
    (v: Value, s: Value) => if IsItem(elem, v) && IsItem(elem, s) then WritePartial(elem, v, s) else v
  }

  lemma {:induction false} SoundIsSettled(c: Cfg, s: Value)
    requires Regular(c) && Sound(c) && Fits(c, s) && Receivable(c, s)
    ensures Settled(c, s)
    decreases c
  {
    match c
    case Sequence(_, _, fields) =>
      if Flagged(c) {
        CalmKeeps(c, s);
      } else if s.Fields? && !HasStub(fields) {
        forall i | 0 <= i < |fields| ensures Settled(fields[i], s.fs[i]) {
          SoundIsSettled(fields[i], s.fs[i]);
        }
      }
    case _ =>
  }

  lemma {:induction false} SoundItemsAreStable(elem: Cfg)
    requires Regular(elem) && !elem.List? && Sound(elem)
    ensures Stable(ReceivedMatcher(elem), ReceivedWriter(elem))
  {
    var matches, write := ReceivedMatcher(elem), ReceivedWriter(elem);
    forall v: Value, s: Value, t: Value | matches(v, s) ensures matches(write(v, s), t) == matches(v, t) {
      WriteStaysReceivable(elem, v, s);
      if IsItem(elem, t) {
        SoundIsSettled(elem, s);
        MatchedWriteKeepsMatches(elem, v, s, t);
      }
    }
  }

  /** Two ways to match that agree on all items of two lists find the same first match. */
  lemma {:induction false} SameFirstMatch<T>(m1: Matcher<T>, m2: Matcher<T>, items: seq<T>, s: T)
    requires forall i | 0 <= i < |items| :: m1(items[i], s) == m2(items[i], s)
    ensures FirstMatch(m1, items, s) == FirstMatch(m2, items, s)
  {
    var a, b := FirstMatch(m1, items, s), FirstMatch(m2, items, s);
    assert !(a < b) && !(b < a);
  }

  /** On received lists the two are the engine's own matching and writing. */
  lemma {:induction false} ReceivedPass(elem: Cfg, n: nat, cur: seq<Value>, src: seq<Value>)
    requires Regular(elem) && !elem.List? && n <= |cur| && AllItems(elem, cur) && AllItems(elem, src)
    ensures SecondPass(ItemMatcher(elem), ItemWriter(elem), n, cur, src)
         == SecondPass(ReceivedMatcher(elem), ReceivedWriter(elem), n, cur, src)
    decreases |src|
  {
    if src != [] {
      var s := src[0];
      assert IsItem(elem, s);
      forall i | 0 <= i < n ensures ItemMatcher(elem)(cur[..n][i], s) == ReceivedMatcher(elem)(cur[..n][i], s) {
        assert IsItem(elem, cur[i]);
      }
      SameFirstMatch(ItemMatcher(elem), ReceivedMatcher(elem), cur[..n], s);
      var k := FirstMatch(ItemMatcher(elem), cur[..n], s);
      if k < n {
        assert IsItem(elem, cur[k]);
        WriteStaysReceivable(elem, cur[k], s);
      }
      ReceivedPass(elem, n, PlaceOne(ItemMatcher(elem), ItemWriter(elem), n, cur, s), src[1..]);
    }
  }

  lemma {:induction false} ReceivedAim(elem: Cfg, items: seq<Value>, src: seq<Value>, k: nat)
    requires Regular(elem) && AllItems(elem, items) && AllItems(elem, src)
    ensures AimedAt(ItemMatcher(elem), items, src, k) == AimedAt(ReceivedMatcher(elem), items, src, k)
    decreases |src|
  {
    if src != [] {
      assert IsItem(elem, src[0]);
      forall i | 0 <= i < |items|
        ensures ItemMatcher(elem)(items[i], src[0]) == ReceivedMatcher(elem)(items[i], src[0])
      {
        assert IsItem(elem, items[i]);
      }
      SameFirstMatch(ItemMatcher(elem), ReceivedMatcher(elem), items, src[0]);
      ReceivedAim(elem, items, src[1..], k);
    }
  }

  /** On all received lists the second pass fills exactly what the first pass counted. */
  ghost predicate ReceivedMergeIsExact(elem: Cfg)
    requires NoChoice(elem)
  {
    forall items: seq<Value>, src: seq<Value> | AllItems(elem, items) && AllItems(elem, src) ::
      |Filled(elem, items, src)| == Counted(elem, items, src)
  }

  /** On received values, the merge is exact exactly on sound schemas. */
  lemma {:induction false} ReceivedExactlyWhenSound(elem: Cfg)
    requires Regular(elem) && !elem.List?
    ensures ReceivedMergeIsExact(elem) <==> Sound(elem)
  {
    if Sound(elem) {
      SoundItemsAreStable(elem);
      forall items: seq<Value>, src: seq<Value> | AllItems(elem, items) && AllItems(elem, src)
        ensures |Filled(elem, items, src)| == Counted(elem, items, src)
      {
        ReceivedPass(elem, |items|, items, src);
        ReceivedAim(elem, items, src, |items|);
        SecondPassIsMerge(ReceivedMatcher(elem), ReceivedWriter(elem), items, src);
      }
    } else {
      var v := UnsoundKeyOverrunsBuffer(elem);
      var items, src := [v], [v, v];
      assert AllItems(elem, items) && AllItems(elem, src);
      assert |Filled(elem, items, src)| != Counted(elem, items, src);
    }
  }
}
