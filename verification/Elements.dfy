/** Field overlay, field projection and field removal, and the laws that tie them. */
module Elements {
  import opened Schema

  datatype Outcome<T> = Ok(value: T) | Err

  /** Field overlay: the non-null parts of `src` replace those of `dst`. */
  function WriteElements(c: Cfg, dst: Value, src: Value): (r: Value)
    requires NoChoice(c) && Fits(c, dst) && Fits(c, src)
    ensures Fits(c, r)
    ensures c.Leaf? || c.List? ==> r == if src.Null? then dst else src
    decreases c
  {
    match c
    case Sequence(_, _, fields) =>
      if src.Null? then dst
      else Fields(seq(|fields|, i requires 0 <= i < |fields| =>
                    WriteElements(fields[i], Slot(fields, dst, i), src.fs[i])))
    case Stub(_, _) => dst
    case _ =>
      if src.Null? then dst
      else
        WriteCopies(c, dst, src);
        Write(c, dst, src)
  }

  /** Projection of `v` onto the mask `e` (an elements value of configuration `m`), written
      over `dst`. A mask that is not a sequence is an error where the data is one. */
  function ReadElements(c: Cfg, v: Value, dst: Value, m: Cfg, e: Value): (r: Outcome<Value>)
    requires NoChoice(c) && Fits(c, v) && Fits(c, dst) && Fits(m, e)
    ensures r.Ok? ==> Fits(c, r.value)
    decreases c, 1
  {
    match c
    case Sequence(_, _, fields) =>
      if !m.Sequence? then Err
      else if v.Null? || e.Null? then Ok(dst)
      else if IsEmpty(m, e) then Ok(v)
      else if exists i | 0 <= i < |fields| :: ReadSlot(c, v, dst, m, e, i).Err? then Err
      else Ok(Fields(seq(|fields|, i requires 0 <= i < |fields| => ReadSlot(c, v, dst, m, e, i).value)))
    case Stub(_, _) => Ok(dst)
    case _ => if IsNull(m, e) then Ok(dst) else Ok(v)
  }

  /** Field `i` of a projection: untouched where the mask says nothing, copied whole where
      the mask field is empty, projected otherwise. */
  function ReadSlot(c: Cfg, v: Value, dst: Value, m: Cfg, e: Value, i: nat): (r: Outcome<Value>)
    requires c.Sequence? && m.Sequence? && v.Fields? && e.Fields? && i < |c.fields|
    requires NoChoice(c) && Fits(c, v) && Fits(c, dst) && Fits(m, e)
    ensures r.Ok? ==> Fits(c.fields[i], r.value)
    decreases c, 0
  {
    assert NoChoice(c.fields[i]) && Fits(c.fields[i], Null);
    if i >= |m.fields| || IsNull(m.fields[i], e.fs[i]) then Ok(Slot(c.fields, dst, i))
    else if IsEmpty(m.fields[i], e.fs[i]) then Ok(v.fs[i])
    else ReadElements(c.fields[i], v.fs[i], Slot(c.fields, dst, i), m.fields[i], e.fs[i])
  }

  /** Removal of the masked fields. A mask of the wrong shape removes nothing. */
  function DeleteElements(c: Cfg, v: Value, m: Cfg, e: Value): (r: Value)
    requires NoChoice(c) && Fits(c, v) && Fits(m, e)
    ensures Fits(c, r)
    decreases c, 1
  {
    match c
    case Sequence(_, _, fields) =>
      if !m.Sequence? || v.Null? || e.Null? then v
      else if IsEmpty(m, e) then Null
      else Fields(seq(|fields|, i requires 0 <= i < |fields| => DeleteSlot(c, v, m, e, i)))
    case Stub(_, _) => v
    case _ => if IsNull(m, e) then v else Null
  }

  function DeleteSlot(c: Cfg, v: Value, m: Cfg, e: Value, i: nat): (r: Value)
    requires c.Sequence? && m.Sequence? && v.Fields? && e.Fields? && i < |c.fields|
    requires NoChoice(c) && Fits(c, v) && Fits(m, e)
    ensures Fits(c.fields[i], r)
    decreases c, 0
  {
    assert NoChoice(c.fields[i]) && Fits(c.fields[i], Null);
    if i >= |m.fields| || IsNull(m.fields[i], e.fs[i]) then v.fs[i]
    else if IsEmpty(m.fields[i], e.fs[i]) then Null
    else DeleteElements(c.fields[i], v.fs[i], m.fields[i], e.fs[i])
  }

  // ---------------------------------------------------------------- overlay monoid

  /** Null is a unit of the overlay on both sides. */
  lemma {:induction false} OverlayUnit(c: Cfg, x: Value)
    requires NoChoice(c) && Fits(c, x)
    ensures WriteElements(c, x, Null) == x
    ensures WriteElements(c, Null, x) == x
    decreases c
  {
    match c
    case Sequence(_, _, fields) =>
      if x.Fields? {
        var w := WriteElements(c, Null, x);
        forall i | 0 <= i < |fields| ensures w.fs[i] == x.fs[i] {
          OverlayUnit(fields[i], x.fs[i]);
        }
        assert w.fs == x.fs;
      }
    case _ =>
  }

  /** Overlaying `a` and then `b` is overlaying `b`-over-`a`. */
  lemma {:induction false} OverlayAssociates(c: Cfg, x: Value, a: Value, b: Value)
    requires NoChoice(c) && Fits(c, x) && Fits(c, a) && Fits(c, b)
    ensures WriteElements(c, WriteElements(c, x, a), b) == WriteElements(c, x, WriteElements(c, a, b))
    decreases c
  {
    OverlayUnit(c, b);
    match c
    case Sequence(_, _, fields) =>
      if a.Fields? && b.Fields? {
        var l := WriteElements(c, WriteElements(c, x, a), b);
        var r := WriteElements(c, x, WriteElements(c, a, b));
        forall i | 0 <= i < |fields| ensures l.fs[i] == r.fs[i] {
          OverlayAssociates(fields[i], Slot(fields, x, i), a.fs[i], b.fs[i]);
        }
        assert l.fs == r.fs;
      }
    case _ =>
  }

  lemma {:induction false} OverlayIdempotent(c: Cfg, a: Value)
    requires NoChoice(c) && Fits(c, a)
    ensures WriteElements(c, a, a) == a
    decreases c
  {
    match c
    case Sequence(_, _, fields) =>
      if a.Fields? {
        var w := WriteElements(c, a, a);
        forall i | 0 <= i < |fields| ensures w.fs[i] == a.fs[i] {
          OverlayIdempotent(fields[i], a.fs[i]);
        }
        assert w.fs == a.fs;
      }
    case _ =>
  }

  /** Overlaying the same source again changes nothing. */
  lemma OverlayAbsorbs(c: Cfg, x: Value, a: Value)
    requires NoChoice(c) && Fits(c, x) && Fits(c, a)
    ensures WriteElements(c, WriteElements(c, x, a), a) == WriteElements(c, x, a)
  {
    OverlayAssociates(c, x, a, a);
    OverlayIdempotent(c, a);
  }

  // ---------------------------------------------------------------- partition law

  /** The projection comes upon a sequence with a mask that is none: at the top, or below a
      structure that is allocated in the data and partly selected. */
  predicate Misfit(c: Cfg, v: Value, m: Cfg, e: Value)
    requires Fits(c, v) && Fits(m, e)
    decreases c
  {
    c.Sequence? &&
    (!m.Sequence? ||
     (v.Fields? && e.Fields? && !IsEmpty(m, e)
      && exists i | 0 <= i < |c.fields| && i < |m.fields| ::
           Selected(m, e, i) && Misfit(c.fields[i], v.fs[i], m.fields[i], e.fs[i])))
  }

  /** The mask selects parts of field `i`. */
  predicate Selected(m: Cfg, e: Value, i: nat)
    requires m.Sequence? && e.Fields? && Fits(m, e) && i < |m.fields|
  {
    !IsNull(m.fields[i], e.fs[i]) && !IsEmpty(m.fields[i], e.fs[i])
  }

  /** Exactly then it fails, whatever it is written over. */
  lemma {:induction false} ReadFailsExactlyOnMisfit(c: Cfg, v: Value, dst: Value, m: Cfg, e: Value)
    requires NoChoice(c) && Fits(c, v) && Fits(c, dst) && Fits(m, e)
    ensures ReadElements(c, v, dst, m, e).Err? <==> Misfit(c, v, m, e)
    decreases c
  {
    match c
    case Sequence(_, _, fields) =>
      if m.Sequence? && v.Fields? && e.Fields? && !IsEmpty(m, e) {
        forall i | 0 <= i < |fields|
          ensures ReadSlot(c, v, dst, m, e, i).Err? <==>
            i < |m.fields| && Selected(m, e, i) && Misfit(fields[i], v.fs[i], m.fields[i], e.fs[i])
        {
          if i < |m.fields| && Selected(m, e, i) {
            ReadFailsExactlyOnMisfit(fields[i], v.fs[i], Slot(fields, dst, i), m.fields[i], e.fs[i]);
          }
        }
      }
    case _ =>
  }

  /** Wherever the data is a sequence and a mask field faces it, the mask is one too. */
  predicate MaskShaped(c: Cfg, m: Cfg)
    decreases c
  {
    c.Sequence? ==>
      m.Sequence? && forall i | 0 <= i < |c.fields| && i < |m.fields| :: MaskShaped(c.fields[i], m.fields[i])
  }

  /** A mask of the right shape never fails. */
  lemma {:induction false} ShapedMaskFits(c: Cfg, v: Value, m: Cfg, e: Value)
    requires Fits(c, v) && Fits(m, e) && MaskShaped(c, m)
    ensures !Misfit(c, v, m, e)
    decreases c
  {
    if c.Sequence? && v.Fields? && e.Fields? && !IsEmpty(m, e) {
      forall i | 0 <= i < |c.fields| && i < |m.fields|
        ensures !Misfit(c.fields[i], v.fs[i], m.fields[i], e.fs[i])
      {
        ShapedMaskFits(c.fields[i], v.fs[i], m.fields[i], e.fs[i]);
      }
    }
  }

  /** An address structure faced by a tag, as in the device description, cannot be read. */
  lemma TagMaskFailsOnAddress(address: Cfg, tag: Cfg, v: Value)
    requires address.Sequence? && NoChoice(address) && tag.Leaf? && tag.leafType.TagType?
    requires Fits(address, v)
    ensures
      var c, m := Sequence("description", 0, [address]), Sequence("elements", 0, [tag]);
      var x, e := Fields([v]), Fields([Datum(TagSet)]);
      && NoChoice(c) && Fits(c, x) && Fits(m, e)
      && ReadElements(c, x, Null, m, e).Err? && DeleteElements(c, x, m, e) == x
  {
    var c, m := Sequence("description", 0, [address]), Sequence("elements", 0, [tag]);
    var x, e := Fields([v]), Fields([Datum(TagSet)]);
    assert c.fields[0] == address && m.fields[0] == tag && x.fs[0] == v && e.fs[0] == Datum(TagSet);
    assert !IsNull(tag, e.fs[0]) && Selected(m, e, 0) && Misfit(address, v, tag, e.fs[0]);
    ReadFailsExactlyOnMisfit(c, x, Null, m, e);
    assert DeleteSlot(c, x, m, e, 0) == v;
  }

  /** What a mask reads and what it leaves after deletion make up the whole: overlaying the
      projection onto the remainder restores the value. */
  lemma {:induction false} ReadAndDeletePartition(c: Cfg, v: Value, m: Cfg, e: Value)
    requires NoChoice(c) && Fits(c, v) && Fits(m, e)
    requires !Misfit(c, v, m, e)
    ensures ReadElements(c, v, Null, m, e).Ok?
    ensures WriteElements(c, DeleteElements(c, v, m, e), ReadElements(c, v, Null, m, e).value) == v
    decreases c, 1
  {
    ReadFailsExactlyOnMisfit(c, v, Null, m, e);
    var d, r := DeleteElements(c, v, m, e), ReadElements(c, v, Null, m, e).value;
    OverlayUnit(c, v);
    match c
    case Sequence(_, _, fields) =>
      if v.Fields? && e.Fields? && !IsEmpty(m, e) {
        var w := WriteElements(c, d, r);
        forall i | 0 <= i < |fields| ensures w.fs[i] == v.fs[i] {
          assert ReadSlot(c, v, Null, m, e, i).Ok?;
          SlotPartition(c, v, m, e, i);
          assert w.fs[i] == WriteElements(fields[i], d.fs[i], r.fs[i]);
        }
        assert w.fs == v.fs;
      }
    case _ =>
  }

  lemma {:induction false} SlotPartition(c: Cfg, v: Value, m: Cfg, e: Value, i: nat)
    requires c.Sequence? && m.Sequence? && v.Fields? && e.Fields? && i < |c.fields|
    requires NoChoice(c) && Fits(c, v) && Fits(m, e) && ReadSlot(c, v, Null, m, e, i).Ok?
    ensures WriteElements(c.fields[i], DeleteSlot(c, v, m, e, i), ReadSlot(c, v, Null, m, e, i).value) == v.fs[i]
    decreases c, 0
  {
    OverlayUnit(c.fields[i], v.fs[i]);
    if i < |m.fields| && Selected(m, e, i) {
      ReadFailsExactlyOnMisfit(c.fields[i], v.fs[i], Null, m.fields[i], e.fs[i]);
      ReadAndDeletePartition(c.fields[i], v.fs[i], m.fields[i], e.fs[i]);
    }
  }

  /** Nothing masked survives a deletion: reading the remainder through the same mask gives
      no leaf, list item or tag. */
  lemma {:induction false} DeletedIsUnreadable(c: Cfg, v: Value, m: Cfg, e: Value)
    requires NoChoice(c) && Fits(c, v) && Fits(m, e)
    requires !Misfit(c, DeleteElements(c, v, m, e), m, e)
    ensures ReadElements(c, DeleteElements(c, v, m, e), Null, m, e).Ok?
    ensures Hollow(ReadElements(c, DeleteElements(c, v, m, e), Null, m, e).value)
    decreases c
  {
    var d := DeleteElements(c, v, m, e);
    ReadFailsExactlyOnMisfit(c, d, Null, m, e);
    match c
    case Sequence(_, _, fields) =>
      if d.Fields? && e.Fields? && !IsEmpty(m, e) {
        var r := ReadElements(c, d, Null, m, e).value;
        forall i | 0 <= i < |fields| ensures Hollow(r.fs[i]) {
          assert ReadSlot(c, d, Null, m, e, i).Ok?;
          if i < |m.fields| && Selected(m, e, i) {
            assert d.fs[i] == DeleteElements(fields[i], v.fs[i], m.fields[i], e.fs[i]);
            DeletedIsUnreadable(fields[i], v.fs[i], m.fields[i], e.fs[i]);
          }
        }
      }
    case _ =>
  }

  /** Allocated structures at most, no content. */
  predicate Hollow(v: Value) {
    v.Null? || (v.Fields? && forall i | 0 <= i < |v.fs| :: Hollow(v.fs[i]))
  }
}
