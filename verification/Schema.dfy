/** Configuration trees, the values they describe, and the deep operations of the
    data engine that need no identifiers: null tests, comparison and write. */
module Schema {
  import opened Chrono

  datatype TimeForm = DurationForm | DateForm | TimeForm | DateTimeForm | AbsoluteOrRelativeForm

  datatype LeafType =
    | BoolType
    | NumberType(lo: int, hi: int)
    | StringType
    | EnumType(table: seq<(string, int)>)
    | TagType
    | TimeType(form: TimeForm)

  /** One configuration entry. Shared destructors: `name` and `flags`. A list is `keyed`
      unless it is a simple list, whose partial write replaces it. */
  datatype Cfg =
    | Leaf(name: string, flags: nat, leafType: LeafType)
    | Sequence(name: string, flags: nat, fields: seq<Cfg>)
    | List(name: string, flags: nat, keyed: bool, elem: Cfg)
    | Choice(name: string, flags: nat, alts: seq<Cfg>)
    | Stub(name: string, flags: nat)

  datatype Payload =
    | BoolOf(b: bool)
    | NumberOf(n: int)
    | StringOf(s: string)
    | EnumOf(code: int)
    | TagSet
    | DurationOf(duration: Duration)
    | DateOf(date: Date)
    | TimeOf(time: Time)
    | DateTimeOf(dateTime: DateTime)
    | MomentOf(moment: AbsoluteOrRelative)

  /** The content of one slot of a parent structure. `Null` is the null pointer (for a
      tag: reset). A choice slot always carries its alternative number. `Mangled` is a
      buffer allocated for one alternative and then used as another. */
  datatype Value =
    | Null
    | Datum(p: Payload)
    | Fields(fs: seq<Value>)
    | Items(items: seq<Value>)
    | Alt(id: nat, data: Value)
    | Mangled

  predicate PayloadFits(t: LeafType, p: Payload) {
    match t
    case BoolType => p.BoolOf?
    case NumberType(lo, hi) => p.NumberOf? && lo <= p.n <= hi
    case StringType => p.StringOf?
    case EnumType(_) => p.EnumOf?
    case TagType => p.TagSet?
    case TimeType(form) =>
      match form
      case DurationForm => p.DurationOf? && DurationNegatable(p.duration)
      case DateForm => p.DateOf?
      case TimeForm => p.TimeOf?
      case DateTimeForm => p.DateTimeOf?
      case AbsoluteOrRelativeForm =>
        p.MomentOf? && (p.moment.Relative? ==> DurationNegatable(p.moment.duration))
  }

  /** The value has the shape the configuration lays out in memory. */
  predicate Fits(c: Cfg, v: Value)
    decreases c
  {
    match c
    case Leaf(_, _, t) => v.Null? || (v.Datum? && PayloadFits(t, v.p))
    case Sequence(_, _, fields) =>
      v.Null? || (v.Fields? && |v.fs| == |fields|
                  && forall i | 0 <= i < |fields| :: Fits(fields[i], v.fs[i]))
    case List(_, _, _, elem) => v.Null? || (v.Items? && forall i | 0 <= i < |v.items| :: Fits(elem, v.items[i]))
    case Choice(_, _, alts) => v.Alt? && v.id < |alts| && Fits(alts[v.id], v.data)
    case Stub(_, _) => v.Null?
  }

  /** Every choice has an alternative, and no alternative is itself a choice. */
  predicate WellFormed(c: Cfg)
    decreases c
  {
    match c
    case Leaf(_, _, _) => true
    case Sequence(_, _, fields) => forall i | 0 <= i < |fields| :: WellFormed(fields[i])
    case List(_, _, _, elem) => WellFormed(elem)
    case Choice(_, _, alts) => |alts| > 0 && forall i | 0 <= i < |alts| :: !alts[i].Choice? && WellFormed(alts[i])
    case Stub(_, _) => true
  }

  predicate NoChoice(c: Cfg)
    decreases c
  {
    match c
    case Leaf(_, _, _) => true
    case Sequence(_, _, fields) => forall i | 0 <= i < |fields| :: NoChoice(fields[i])
    case List(_, _, _, elem) => NoChoice(elem)
    case Choice(_, _, _) => false
    case Stub(_, _) => true
  }

  lemma {:induction false} NoChoiceIsWellFormed(c: Cfg)
    requires NoChoice(c)
    ensures WellFormed(c)
    decreases c
  {
    match c
    case Sequence(_, _, fields) =>
      forall i | 0 <= i < |fields| ensures WellFormed(fields[i]) {
        NoChoiceIsWellFormed(fields[i]);
      }
    case List(_, _, _, elem) => NoChoiceIsWellFormed(elem);
    case _ =>
  }

  /** A slot of a freshly zeroed structure. */
  function Zero(c: Cfg): (z: Value)
    ensures WellFormed(c) ==> Fits(c, z)
  {
    if c.Choice? then Alt(0, Null) else Null
  }

  /** Slot `i` of a structure that may not be allocated yet. */
  function Slot(fields: seq<Cfg>, v: Value, i: nat): Value
    requires i < |fields|
  {
    if v.Fields? && i < |v.fs| then v.fs[i] else Zero(fields[i])
  }

  /** Entry `i` of the list buffer a write of `n` items works on: the old buffer when its
      size is right, a zeroed one otherwise. */
  function Entry(elem: Cfg, dst: Value, n: nat, i: nat): Value
    requires i < n
  {
    if dst.Items? && |dst.items| == n then dst.items[i] else Zero(elem)
  }

  predicate IsNull(c: Cfg, v: Value)
    requires Fits(c, v)
    decreases c
  {
    if c.Choice? then IsNull(c.alts[v.id], v.data) else v.Null?
  }

  /** Only a sequence can be empty: allocated, with every field null. */
  predicate IsEmpty(c: Cfg, v: Value)
    requires Fits(c, v)
    decreases c
  {
    match c
    case Sequence(_, _, fields) => v.Fields? && forall i | 0 <= i < |fields| :: IsNull(fields[i], v.fs[i])
    case Choice(_, _, alts) => IsEmpty(alts[v.id], v.data)
    case _ => false
  }

  predicate NullData(v: Value) {
    v.Null? || (v.Alt? && v.data.Null?)
  }

  /** Null and empty, told from the value alone: a null pointer, or a choice that holds one; an
      allocated structure, or a choice that holds one, with nothing but null fields. */
  lemma NullAndEmptyValues(c: Cfg, v: Value)
    requires WellFormed(c) && Fits(c, v)
    ensures IsNull(c, v) <==> NullData(v)
    ensures
      var w := if v.Alt? then v.data else v;
      IsEmpty(c, v) <==> w.Fields? && forall i | 0 <= i < |w.fs| :: NullData(w.fs[i])
  {
    var a, w := if c.Choice? then c.alts[v.id] else c, if v.Alt? then v.data else v;
    if a.Sequence? && w.Fields? {
      forall i | 0 <= i < |a.fields| ensures IsNull(a.fields[i], w.fs[i]) <==> NullData(w.fs[i]) {
      }
    }
  }

  /** Leaves of one interface table: numbers of any width share one, and so do all
      enumerations and all date-time forms. */
  predicate SameInterface(a: LeafType, b: LeafType) {
    match a
    case BoolType => b.BoolType?
    case NumberType(_, _) => b.NumberType?
    case StringType => b.StringType?
    case EnumType(_) => b.EnumType?
    case TagType => b.TagType?
    case TimeType(_) => b.TimeType?
  }

  /** Deep comparison; the two sides may come from different configurations, as they do
      when a selector is compared with the data it selects. */
  predicate Compare(a: Cfg, x: Value, b: Cfg, y: Value)
    requires Fits(a, x) && Fits(b, y)
    decreases a
  {
    match a
    case Leaf(_, _, t) => b.Leaf? && SameInterface(t, b.leafType) && x == y
    case Sequence(_, _, fields) =>
      b.Sequence? &&
      if x.Null? || y.Null? then x == y
      else
        |fields| == |b.fields| &&
        forall i | 0 <= i < |fields| :: Compare(fields[i], x.fs[i], b.fields[i], y.fs[i])
    case List(_, _, _, elem) =>
      b.List? &&
      if x.Null? || y.Null? then x == y
      else
        |x.items| == |y.items| &&
        forall i | 0 <= i < |x.items| :: Compare(elem, x.items[i], b.elem, y.items[i])
    case Choice(_, _, alts) => b.Choice? && Compare(alts[x.id], x.data, b.alts[y.id], y.data)
    case Stub(_, _) => true
  }

  // ---------------------------------------------------------------- buffers and their reuse

  /** Bytes of a pointer, a list size or an alternative number on the 32-bit target. */
  const WORD := 4

  /** Bytes of a number type: the narrowest of the eight integer types with its range. */
  function NumberSize(lo: int, hi: int): nat {
    if (0 <= lo && hi < 0x100) || (-0x80 <= lo && hi < 0x80) then 1
    else if (0 <= lo && hi < 0x1_0000) || (-0x8000 <= lo && hi < 0x8000) then 2
    else if (0 <= lo && hi < 0x1_0000_0000) || (-0x8000_0000 <= lo && hi < 0x8000_0000) then 4
    else 8
  }

  /** Bytes of the buffer of a fixed-size leaf. */
  function LeafSize(t: LeafType): nat {
    match t
    case BoolType => 1
    case NumberType(lo, hi) => NumberSize(lo, hi)
    case EnumType(_) => 4
    case TimeType(DurationForm) => 28
    case TimeType(DateForm) => 12
    case TimeType(TimeForm) => 12
    case TimeType(DateTimeForm) => 24
    case TimeType(AbsoluteOrRelativeForm) => 32
    case _ => 0
  }

  /** Words a field takes in its structure. A stub has no member of its own. */
  function SlotWords(c: Cfg): nat {
    match c
    case Leaf(_, _, _) => 1
    case Sequence(_, _, _) => 1
    case List(_, _, _, _) => 2
    case Choice(_, _, _) => 2
    case Stub(_, _) => 0
  }

  function StructWords(fields: seq<Cfg>): nat {
    if fields == [] then 0 else SlotWords(fields[0]) + StructWords(fields[1..])
  }

  predicate IsTag(c: Cfg) {
    c.Leaf? && c.leafType.TagType?
  }

  predicate IsText(c: Cfg) {
    c.Leaf? && c.leafType.StringType?
  }

  /** Bytes of the buffer behind a slot that is not null. */
  function BufferSize(a: Cfg, x: Value): nat
    requires Fits(a, x) && !x.Null?
  {
    match a
    case Leaf(_, _, t) => if t.StringType? then |x.p.s| + 1 else LeafSize(t)
    case Sequence(_, _, fields) => WORD * StructWords(fields)
    case List(_, _, _, elem) => WORD * SlotWords(elem) * |x.items|
    case _ => 0
  }

  /** The two slots hold the same kind of words. */
  predicate SameSlot(a: Cfg, c: Cfg) {
    a.List? == c.List? && a.Choice? == c.Choice? && a.Stub? == c.Stub?
  }

  /** A structure of the fields `af` can be walked as one of the fields `cf`. */
  predicate LineUp(af: seq<Cfg>, cf: seq<Cfg>) {
    |cf| <= |af| && forall i | 0 <= i < |cf| :: SameSlot(af[i], cf[i])
  }

  /** The slot of a non-null value `x` of configuration `a` can be deleted through configuration
      `c`: whatever it frees is a pointer, whatever it walks is laid out for it. A set tag is
      not a pointer. */
  predicate Deletable(a: Cfg, x: Value, c: Cfg)
    requires Fits(a, x)
    decreases c
  {
    x.Null? ||
    match c
    case Leaf(_, _, t) => t.TagType? || !IsTag(a)
    case Sequence(_, _, fields) =>
      a.Sequence? && LineUp(a.fields, fields)
      && forall i | 0 <= i < |fields| :: Deletable(a.fields[i], x.fs[i], fields[i])
    case List(_, _, _, elem) =>
      a.List? && SameSlot(a.elem, elem) && forall i | 0 <= i < |x.items| :: Deletable(a.elem, x.items[i], elem)
    case Choice(_, _, alts) => a.Choice? && x.id < |alts| && Deletable(a.alts[x.id], x.data, alts[x.id])
    case Stub(_, _) => true
  }

  /** A leaf other than a tag can be written into the non-null slot `x`: null by freeing it, text
      over text, anything else into a buffer that is large enough. */
  predicate LeafLands(a: Cfg, x: Value, t: LeafType, src: Value)
    requires Fits(a, x) && !x.Null?
  {
    !IsTag(a) && (src.Null? || if t.StringType? then IsText(a) else LeafSize(t) <= BufferSize(a, x))
  }

  /** Deep write of `src`, of configuration `c`, into a slot that holds the value `x` of
      configuration `a`. The two differ when a choice changes its alternative: it takes over the
      source's number and keeps the buffer it has, for the new alternative to reuse. A tag is
      stored in the slot itself; a stub touches nothing. */
  function Overwrite(a: Cfg, x: Value, c: Cfg, src: Value): Value
    requires WellFormed(a) && WellFormed(c) && a.Choice? == c.Choice? && Fits(a, x) && Fits(c, src)
    decreases c
  {
    match c
    case Leaf(_, _, t) => if t.TagType? || x.Null? || LeafLands(a, x, t, src) then src else Mangled
    case Sequence(_, _, fields) =>
      if src.Null? then if Deletable(a, x, c) then Null else Mangled
      else if x.Null? then
        Fields(seq(|fields|, i requires 0 <= i < |fields| =>
                 Overwrite(fields[i], Zero(fields[i]), fields[i], src.fs[i])))
      else if a.Sequence? && LineUp(a.fields, fields) then
        Fields(seq(|fields|, i requires 0 <= i < |fields| =>
                 Overwrite(a.fields[i], x.fs[i], fields[i], src.fs[i])))
      else Mangled
    case List(_, _, _, elem) =>
      if src.Null? then if Deletable(a, x, c) then Null else Mangled
      else
        var n := |src.items|;
        if x.Null? || (a.List? && |x.items| != n && Deletable(a, x, c)) then
          Items(seq(n, i requires 0 <= i < n => Overwrite(elem, Zero(elem), elem, src.items[i])))
        else if a.List? && |x.items| == n && SameSlot(a.elem, elem) then
          Items(seq(n, i requires 0 <= i < n => Overwrite(a.elem, x.items[i], elem, src.items[i])))
        else Mangled
    case Choice(_, _, alts) => Alt(src.id, Overwrite(a.alts[x.id], x.data, alts[src.id], src.data))
    case Stub(_, _) => x
  }

  /** Deep write of `src` into a slot that holds `dst`. */
  function Write(c: Cfg, dst: Value, src: Value): Value
    requires WellFormed(c) && Fits(c, dst) && Fits(c, src)
  {
    Overwrite(c, dst, c, src)
  }

  /** Every buffer the write reuses suits what is written into it. */
  predicate Aligned(a: Cfg, x: Value, c: Cfg, src: Value)
    requires a.Choice? == c.Choice? && WellFormed(a) && WellFormed(c) && Fits(a, x) && Fits(c, src)
    decreases c
  {
    match c
    case Leaf(_, _, t) => t.TagType? || x.Null? || LeafLands(a, x, t, src)
    case Sequence(_, _, fields) =>
      x.Null? ||
      if src.Null? then Deletable(a, x, c)
      else
        a.Sequence? && LineUp(a.fields, fields)
        && forall i | 0 <= i < |fields| :: Aligned(a.fields[i], x.fs[i], fields[i], src.fs[i])
    case List(_, _, _, elem) =>
      x.Null? ||
      if src.Null? || !a.List? || |x.items| != |src.items| then Deletable(a, x, c)
      else SameSlot(a.elem, elem) && forall i | 0 <= i < |src.items| :: Aligned(a.elem, x.items[i], elem, src.items[i])
    case Choice(_, _, alts) => Aligned(a.alts[x.id], x.data, alts[src.id], src.data)
    case Stub(_, _) => x.Null?
  }

  lemma {:induction false} ZeroIsAligned(c: Cfg, src: Value)
    requires WellFormed(c) && Fits(c, src)
    ensures Aligned(c, Zero(c), c, src)
  {
    if c.Choice? {
      assert Aligned(c.alts[0], Null, c.alts[src.id], src.data);
    }
  }

  lemma {:induction false} OverwriteIsExact(a: Cfg, x: Value, c: Cfg, src: Value)
    requires a.Choice? == c.Choice? && WellFormed(a) && WellFormed(c) && Fits(a, x) && Fits(c, src)
    ensures Overwrite(a, x, c, src) == src <==> Aligned(a, x, c, src)
    decreases c
  {
    match c
    case Leaf(_, _, _) =>
    case Stub(_, _) =>
    case Sequence(_, _, fields) =>
      if src.Fields? && (x.Null? || (a.Sequence? && LineUp(a.fields, fields))) {
        var w := Overwrite(a, x, c, src);
        forall i | 0 <= i < |fields|
          ensures x.Null? ==> w.fs[i] == src.fs[i]
          ensures x.Fields? ==> (w.fs[i] == src.fs[i] <==> Aligned(a.fields[i], x.fs[i], fields[i], src.fs[i]))
        {
          if x.Null? {
            OverwriteIsExact(fields[i], Zero(fields[i]), fields[i], src.fs[i]);
            ZeroIsAligned(fields[i], src.fs[i]);
          } else {
            OverwriteIsExact(a.fields[i], x.fs[i], fields[i], src.fs[i]);
          }
        }
        assert w == src <==> forall i | 0 <= i < |fields| :: w.fs[i] == src.fs[i];
      }
    case List(_, _, _, elem) => ListOverwriteIsExact(a, x, c, src);
    case Choice(_, _, alts) => OverwriteIsExact(a.alts[x.id], x.data, alts[src.id], src.data);
  }

  lemma {:induction false} ListOverwriteIsExact(a: Cfg, x: Value, c: Cfg, src: Value)
    requires c.List? && !a.Choice? && WellFormed(a) && WellFormed(c) && Fits(a, x) && Fits(c, src)
    ensures Overwrite(a, x, c, src) == src <==> Aligned(a, x, c, src)
    decreases c, 0
  {
    var w := Overwrite(a, x, c, src);
    if src.Items? && w.Items? {
      var kept := !x.Null? && |x.items| == |src.items|;
      forall i | 0 <= i < |src.items|
        ensures !kept ==> w.items[i] == src.items[i]
        ensures kept ==> (w.items[i] == src.items[i] <==> Aligned(a.elem, x.items[i], c.elem, src.items[i]))
      {
        if kept {
          OverwriteIsExact(a.elem, x.items[i], c.elem, src.items[i]);
        } else {
          OverwriteIsExact(c.elem, Zero(c.elem), c.elem, src.items[i]);
          ZeroIsAligned(c.elem, src.items[i]);
        }
      }
      assert w == src <==> forall i | 0 <= i < |src.items| :: w.items[i] == src.items[i];
    }
  }

  /** A deep write yields the source value exactly when every buffer it reuses suits. */
  lemma WriteIsExact(c: Cfg, dst: Value, src: Value)
    requires WellFormed(c) && Fits(c, dst) && Fits(c, src)
    ensures Write(c, dst, src) == src <==> Aligned(c, dst, c, src)
  {
    OverwriteIsExact(c, dst, c, src);
  }

  /** Whatever a value holds, its own configuration can delete it. */
  lemma {:induction false} SelfDeletable(c: Cfg, x: Value)
    requires Fits(c, x)
    ensures Deletable(c, x, c)
    decreases c
  {
    match c
    case Sequence(_, _, fields) =>
      if x.Fields? {
        forall i | 0 <= i < |fields| ensures Deletable(fields[i], x.fs[i], fields[i]) {
          SelfDeletable(fields[i], x.fs[i]);
        }
      }
    case List(_, _, _, elem) =>
      if x.Items? {
        forall i | 0 <= i < |x.items| ensures Deletable(elem, x.items[i], elem) {
          SelfDeletable(elem, x.items[i]);
        }
      }
    case Choice(_, _, alts) => SelfDeletable(alts[x.id], x.data);
    case _ =>
  }

  /** Wherever the write reaches a choice that already holds data, source and destination are on
      the same alternative. */
  predicate Agreeing(c: Cfg, dst: Value, src: Value)
    requires Fits(c, dst) && Fits(c, src)
    decreases c
  {
    match c
    case Sequence(_, _, fields) =>
      dst.Fields? && src.Fields? ==> forall i | 0 <= i < |fields| :: Agreeing(fields[i], dst.fs[i], src.fs[i])
    case List(_, _, _, elem) =>
      dst.Items? && src.Items? && |dst.items| == |src.items| ==>
        forall i | 0 <= i < |src.items| :: Agreeing(elem, dst.items[i], src.items[i])
    case Choice(_, _, alts) =>
      dst.data.Null? || (dst.id == src.id && Agreeing(alts[src.id], dst.data, src.data))
    case _ => true
  }

  /** Then everything suits. */
  lemma {:induction false} AgreeingIsAligned(c: Cfg, dst: Value, src: Value)
    requires WellFormed(c) && Fits(c, dst) && Fits(c, src) && Agreeing(c, dst, src)
    ensures Aligned(c, dst, c, src)
    decreases c
  {
    SelfDeletable(c, dst);
    match c
    case Sequence(_, _, fields) =>
      if dst.Fields? && src.Fields? {
        forall i | 0 <= i < |fields| ensures Aligned(fields[i], dst.fs[i], fields[i], src.fs[i]) {
          AgreeingIsAligned(fields[i], dst.fs[i], src.fs[i]);
        }
      }
    case List(_, _, _, elem) =>
      if dst.Items? && src.Items? && |dst.items| == |src.items| {
        forall i | 0 <= i < |src.items| ensures Aligned(elem, dst.items[i], elem, src.items[i]) {
          AgreeingIsAligned(elem, dst.items[i], src.items[i]);
        }
      }
    case Choice(_, _, alts) =>
      if !dst.data.Null? {
        AgreeingIsAligned(alts[src.id], dst.data, src.data);
      }
    case _ =>
  }

  /** What a choice does when its alternative changes, by the kind of the new one: a tag is taken
      over whatever the slot held; a null leaf too unless the slot held a set tag; a stub leaves
      the old buffer in place; a structure needs lined-up slots; over a set tag nothing but a
      tag is exact. */
  lemma ChangedAlternative(c: Cfg, dst: Value, src: Value)
    requires c.Choice? && WellFormed(c) && Fits(c, dst) && Fits(c, src) && !dst.data.Null?
    ensures
      var old_, new_, exact := c.alts[dst.id], c.alts[src.id], Write(c, dst, src) == src;
      && (IsTag(new_) ==> exact)
      && (IsTag(old_) && !IsTag(new_) ==> !exact)
      && (new_.Leaf? && src.data.Null? && !IsTag(old_) ==> exact)
      && (new_.Stub? ==> !exact && Write(c, dst, src).data == dst.data)
      && (new_.Sequence? && exact ==> old_.Sequence? && LineUp(old_.fields, new_.fields))
  {
    OverwriteIsExact(c, dst, c, src);
  }

  /** Bytes by type: the eight integers, the 32-bit fields of the structures. */
  lemma LeafSizes()
    ensures LeafSize(NumberType(0, 255)) == LeafSize(NumberType(-128, 127)) == LeafSize(BoolType) == 1
    ensures LeafSize(NumberType(0, 65535)) == LeafSize(NumberType(-32768, 32767)) == 2
    ensures LeafSize(NumberType(0, 4294967295)) == LeafSize(NumberType(-2147483648, 2147483647)) == 4
    ensures LeafSize(NumberType(0, 18446744073709551615)) == 8
    ensures LeafSize(NumberType(-9223372036854775808, 9223372036854775807)) == 8
    ensures forall table :: LeafSize(EnumType(table)) == 4
    ensures LeafSize(TimeType(DateForm)) == LeafSize(TimeType(TimeForm)) == 3 * 4
    ensures LeafSize(TimeType(DateTimeForm)) == 6 * 4 && LeafSize(TimeType(DurationForm)) == 7 * 4
    ensures LeafSize(TimeType(AbsoluteOrRelativeForm)) == 4 + 7 * 4
  {
  }

  /** A leaf written over another: text needs text, anything else a buffer of its size, which for
      text is its length and the terminator. */
  lemma LeafOverLeaf(c: Cfg, dst: Value, src: Value)
    requires c.Choice? && WellFormed(c) && Fits(c, dst) && Fits(c, src)
    requires c.alts[dst.id].Leaf? && c.alts[src.id].Leaf? && dst.data.Datum? && src.data.Datum?
    ensures
      var t, u := c.alts[dst.id].leafType, c.alts[src.id].leafType;
      Write(c, dst, src) == src <==>
        || u.TagType?
        || (u.StringType? && t.StringType?)
        || (!u.StringType? && dst.data.p.StringOf? && LeafSize(u) < |dst.data.p.s| + 2)
        || (!u.StringType? && !t.StringType? && !t.TagType? && LeafSize(u) <= LeafSize(t))
  {
    OverwriteIsExact(c, dst, c, src);
  }

  lemma {:induction false} PointersAreWords(fields: seq<Cfg>)
    requires forall i | 0 <= i < |fields| :: fields[i].Leaf? || fields[i].Sequence?
    ensures StructWords(fields) == |fields|
  {
    if fields != [] {
      PointersAreWords(fields[1..]);
    }
  }

  /** A leaf written over a structure of pointers needs no more bytes than these take. */
  lemma LeafOverStructure(c: Cfg, dst: Value, src: Value)
    requires c.Choice? && WellFormed(c) && Fits(c, dst) && Fits(c, src)
    requires c.alts[dst.id].Sequence? && c.alts[src.id].Leaf? && dst.data.Fields? && src.data.Datum?
    requires forall i | 0 <= i < |c.alts[dst.id].fields| ::
      c.alts[dst.id].fields[i].Leaf? || c.alts[dst.id].fields[i].Sequence?
    ensures
      var u := c.alts[src.id].leafType;
      Write(c, dst, src) == src <==>
        u.TagType? || (!u.StringType? && LeafSize(u) <= 4 * |c.alts[dst.id].fields|)
  {
    OverwriteIsExact(c, dst, c, src);
    PointersAreWords(c.alts[dst.id].fields);
  }

  /** A set tag among the fields keeps the structure from being deleted as one with a pointer there. */
  lemma SetTagBlocksDeletion(a: Cfg, x: Value, c: Cfg, i: nat)
    requires a.Sequence? && c.Sequence? && Fits(a, x) && x.Fields? && LineUp(a.fields, c.fields) && i < |c.fields|
    requires IsTag(a.fields[i]) && !x.fs[i].Null? && !IsTag(c.fields[i])
    ensures !Deletable(a, x, c)
  {
    assert SameSlot(a.fields[i], c.fields[i]) && !Deletable(a.fields[i], x.fs[i], c.fields[i]);
  }

  /** Structures of tags, as they select elements: every tag of `c` faces a pointer slot of `a`,
      every structure a structure with at least as many fields. */
  predicate Covers(a: Cfg, c: Cfg)
    decreases c
  {
    match c
    case Leaf(_, _, t) => t.TagType? && (a.Leaf? || a.Sequence?)
    case Sequence(_, _, fields) =>
      a.Sequence? && |fields| <= |a.fields| && forall i | 0 <= i < |fields| :: Covers(a.fields[i], fields[i])
    case _ => false
  }

  lemma {:induction false} CoveredIsDeletable(a: Cfg, x: Value, c: Cfg)
    requires Covers(a, c) && Fits(a, x)
    ensures Deletable(a, x, c)
    decreases c
  {
    if c.Sequence? && x.Fields? {
      forall i | 0 <= i < |c.fields|
        ensures SameSlot(a.fields[i], c.fields[i]) && Deletable(a.fields[i], x.fs[i], c.fields[i])
      {
        assert Covers(a.fields[i], c.fields[i]);
        CoveredIsDeletable(a.fields[i], x.fs[i], c.fields[i]);
      }
    }
  }

  /** Such alternatives may be exchanged freely: the write is exact whatever the slot held. */
  lemma {:induction false} CoveredIsAligned(a: Cfg, x: Value, c: Cfg, src: Value)
    requires Covers(a, c) && WellFormed(a) && WellFormed(c) && Fits(a, x) && Fits(c, src)
    ensures Aligned(a, x, c, src)
    decreases c
  {
    CoveredIsDeletable(a, x, c);
    if c.Sequence? && x.Fields? && src.Fields? {
      forall i | 0 <= i < |c.fields|
        ensures SameSlot(a.fields[i], c.fields[i]) && Aligned(a.fields[i], x.fs[i], c.fields[i], src.fs[i])
      {
        assert Covers(a.fields[i], c.fields[i]);
        CoveredIsAligned(a.fields[i], x.fs[i], c.fields[i], src.fs[i]);
      }
    }
  }

  /** A structure written over a set tag goes through a pointer that is none. */
  lemma TagIsNoBuffer()
    ensures
      var tag, structure := Leaf("t", 0, TagType), Sequence("s", 0, [Leaf("f", 0, TagType)]);
      var c := Choice("", 0, [tag, structure]);
      var dst, src := Alt(0, Datum(TagSet)), Alt(1, Fields([Null]));
      WellFormed(c) && Fits(c, dst) && Fits(c, src) && Write(c, dst, src) == Alt(1, Mangled)
  {
    var tag, structure := Leaf("t", 0, TagType), Sequence("s", 0, [Leaf("f", 0, TagType)]);
    var c := Choice("", 0, [tag, structure]);
    var dst, src := Alt(0, Datum(TagSet)), Alt(1, Fields([Null]));
    assert c.alts[0] == tag && c.alts[1] == structure && structure.fields[0] == Leaf("f", 0, TagType);
    assert WellFormed(structure) && Fits(structure, src.data) && Fits(tag, dst.data);
    assert Overwrite(tag, dst.data, structure, src.data) == Mangled;
  }

  lemma {:induction false} CompareIsReflexive(c: Cfg, x: Value)
    requires Fits(c, x)
    ensures Compare(c, x, c, x)
    decreases c
  {
    match c
    case Sequence(_, _, fields) =>
      if x.Fields? {
        forall i | 0 <= i < |fields| ensures Compare(fields[i], x.fs[i], fields[i], x.fs[i]) {
          CompareIsReflexive(fields[i], x.fs[i]);
        }
      }
    case List(_, _, _, elem) =>
      if x.Items? {
        forall i | 0 <= i < |x.items| ensures Compare(elem, x.items[i], elem, x.items[i]) {
          CompareIsReflexive(elem, x.items[i]);
        }
      }
    case Choice(_, _, alts) => CompareIsReflexive(alts[x.id], x.data);
    case _ =>
  }

  /** Without choices, comparison is structural equality. */
  lemma {:induction false} CompareIsEquality(c: Cfg, x: Value, y: Value)
    requires NoChoice(c) && Fits(c, x) && Fits(c, y)
    ensures Compare(c, x, c, y) <==> x == y
    decreases c
  {
    CompareIsReflexive(c, x);
    match c
    case Sequence(_, _, fields) =>
      if Compare(c, x, c, y) && x.Fields? {
        forall i | 0 <= i < |fields| ensures x.fs[i] == y.fs[i] {
          CompareIsEquality(fields[i], x.fs[i], y.fs[i]);
        }
        assert x.fs == y.fs;
      }
    case List(_, _, _, elem) =>
      if Compare(c, x, c, y) && x.Items? {
        forall i | 0 <= i < |x.items| ensures x.items[i] == y.items[i] {
          CompareIsEquality(elem, x.items[i], y.items[i]);
        }
        assert x.items == y.items;
      }
    case _ =>
  }

  /** Whatever the destination held before, an aligned write leaves it equal to the source
      under the engine's own comparison. */
  lemma WriteThenCompare(c: Cfg, dst: Value, src: Value)
    requires WellFormed(c) && Fits(c, dst) && Fits(c, src)
    requires Aligned(c, dst, c, src)
    ensures Fits(c, Write(c, dst, src)) && Compare(c, Write(c, dst, src), c, src)
  {
    WriteIsExact(c, dst, src);
    CompareIsReflexive(c, src);
  }

  /** Choice-free writes are always exact. */
  lemma {:induction false} WriteCopies(c: Cfg, dst: Value, src: Value)
    requires NoChoice(c) && Fits(c, dst) && Fits(c, src)
    ensures WellFormed(c) && Write(c, dst, src) == src
  {
    NoChoiceIsWellFormed(c);
    NoChoiceAgrees(c, dst, src);
    AgreeingIsAligned(c, dst, src);
    WriteIsExact(c, dst, src);
  }

  lemma {:induction false} NoChoiceAgrees(c: Cfg, dst: Value, src: Value)
    requires NoChoice(c) && Fits(c, dst) && Fits(c, src)
    ensures Agreeing(c, dst, src)
    decreases c
  {
    match c
    case Sequence(_, _, fields) =>
      if dst.Fields? && src.Fields? {
        forall i | 0 <= i < |fields| ensures Agreeing(fields[i], dst.fs[i], src.fs[i]) {
          NoChoiceAgrees(fields[i], dst.fs[i], src.fs[i]);
        }
      }
    case List(_, _, _, elem) =>
      if dst.Items? && src.Items? && |dst.items| == |src.items| {
        forall i | 0 <= i < |src.items| ensures Agreeing(elem, dst.items[i], src.items[i]) {
          NoChoiceAgrees(elem, dst.items[i], src.items[i]);
        }
      }
    case _ =>
  }
}
