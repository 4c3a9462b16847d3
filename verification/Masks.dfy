/** What a mask selects, told from the mask value along the path to a leaf or list: the places
    projection copies and deletion clears. */
module Masks {
  import opened Schema
  import opened Elements

  /** What lies at the end of a path of field numbers; null where the path leaves the value. */
  function At(v: Value, p: seq<nat>): Value
    decreases |p|
  {
    if p == [] then v
    else if v.Fields? && p[0] < |v.fs| then At(v.fs[p[0]], p[1..])
    else Null
  }

  /** The path ends at a leaf, list or stub of the schema. */
  predicate Place(c: Cfg, p: seq<nat>)
    decreases |p|
  {
    if p == [] then !c.Sequence?
    else c.Sequence? && p[0] < |c.fields| && Place(c.fields[p[0]], p[1..])
  }

  /** An allocated structure with nothing but null fields selects all that it faces. */
  predicate AllOf(e: Value) {
    e.Fields? && forall i | 0 <= i < |e.fs| :: e.fs[i] == Null
  }

  /** The mask selects the place: it is set there, or selects all on the way. */
  predicate Chosen(e: Value, p: seq<nat>)
    decreases |p|
  {
    if p == [] then !e.Null?
    else AllOf(e) || (e.Fields? && p[0] < |e.fs| && Chosen(e.fs[p[0]], p[1..]))
  }

  lemma EmptyMaskIsAllOf(m: Cfg, e: Value)
    requires NoChoice(m) && Fits(m, e)
    ensures IsNull(m, e) <==> e == Null
    ensures IsEmpty(m, e) <==> AllOf(e)
  {
    NoChoiceIsWellFormed(m);
    NullAndEmptyValues(m, e);
    if e.Fields? {
      forall i | 0 <= i < |e.fs| ensures NullData(e.fs[i]) <==> e.fs[i] == Null {
        assert NoChoice(m.fields[i]);
      }
    }
  }

  lemma {:induction false} NullIsNullEverywhere(p: seq<nat>)
    ensures At(Null, p) == Null
  {
  }

  lemma {:induction false} NothingChosenByNull(p: seq<nat>)
    ensures !Chosen(Null, p)
  {
  }

  /** A deletion clears exactly the chosen places, at every depth; structures stay allocated unless
      the mask selects all of them. */
  lemma {:induction false} DeletionClearsChosen(c: Cfg, v: Value, m: Cfg, e: Value, p: seq<nat>)
    requires NoChoice(c) && NoChoice(m) && Fits(c, v) && Fits(m, e) && Place(c, p)
    ensures At(DeleteElements(c, v, m, e), p) == if Chosen(e, p) then Null else At(v, p)
    ensures c.Sequence? && v.Fields? && !AllOf(e) ==> DeleteElements(c, v, m, e).Fields?
    decreases c
  {
    EmptyMaskIsAllOf(m, e);
    if c.Sequence? && m.Sequence? && v.Fields? && e.Fields? && !AllOf(e) {
      var i, q := p[0], p[1..];
      var d := DeleteElements(c, v, m, e);
      assert d.fs[i] == DeleteSlot(c, v, m, e, i);
      if i < |m.fields| {
        assert NoChoice(m.fields[i]) && Fits(m.fields[i], e.fs[i]);
        EmptyMaskIsAllOf(m.fields[i], e.fs[i]);
        if e.fs[i] != Null && !AllOf(e.fs[i]) {
          DeletionClearsChosen(c.fields[i], v.fs[i], m.fields[i], e.fs[i], q);
        }
      }
    }
  }

  /** The projection gets to the place: a structure that is taken apart on the way is allocated. */
  predicate Taken(e: Value, v: Value, p: seq<nat>)
    decreases |p|
  {
    if p == [] then !e.Null?
    else
      && v.Fields? && e.Fields? && p[0] < |v.fs|
      && (AllOf(e) || (p[0] < |e.fs| && (AllOf(e.fs[p[0]]) || Taken(e.fs[p[0]], v.fs[p[0]], p[1..]))))
  }

  /** What is chosen and not taken is not there. */
  lemma {:induction false} ChosenButNotTaken(e: Value, v: Value, p: seq<nat>)
    ensures Taken(e, v, p) ==> Chosen(e, p)
    ensures Chosen(e, p) && !Taken(e, v, p) ==> At(v, p) == Null
    decreases |p|
  {
    if p != [] && v.Fields? && e.Fields? && p[0] < |v.fs| && p[0] < |e.fs| {
      ChosenButNotTaken(e.fs[p[0]], v.fs[p[0]], p[1..]);
    }
  }

  /** A projection copies exactly the places it gets to, at every depth, and leaves the others of
      what it is written over alone. */
  lemma {:induction false} ProjectionCopiesTaken(c: Cfg, v: Value, dst: Value, m: Cfg, e: Value, p: seq<nat>)
    requires NoChoice(c) && NoChoice(m) && Fits(c, v) && Fits(c, dst) && Fits(m, e) && Place(c, p)
    requires !Misfit(c, v, m, e)
    ensures
      var r := ReadElements(c, v, dst, m, e);
      r.Ok? && At(r.value, p) == if Taken(e, v, p) then At(v, p) else At(dst, p)
    decreases c
  {
    ReadFailsExactlyOnMisfit(c, v, dst, m, e);
    EmptyMaskIsAllOf(m, e);
    if c.Sequence? && v.Fields? && e.Fields? && !AllOf(e) {
      var i, q := p[0], p[1..];
      var r := ReadElements(c, v, dst, m, e).value;
      assert r.fs[i] == ReadSlot(c, v, dst, m, e, i).value;
      assert NoChoice(c.fields[i]) && At(Slot(c.fields, dst, i), q) == At(dst, p);
      if i < |m.fields| {
        assert NoChoice(m.fields[i]) && Fits(m.fields[i], e.fs[i]);
        EmptyMaskIsAllOf(m.fields[i], e.fs[i]);
        if e.fs[i] != Null && !AllOf(e.fs[i]) {
          assert Selected(m, e, i);
          ProjectionCopiesTaken(c.fields[i], v.fs[i], Slot(c.fields, dst, i), m.fields[i], e.fs[i], q);
        }
      }
    }
  }

  /** Into nothing, a projection is what the mask chooses and no more. */
  lemma ProjectionIsChosen(c: Cfg, v: Value, m: Cfg, e: Value, p: seq<nat>)
    requires NoChoice(c) && NoChoice(m) && Fits(c, v) && Fits(m, e) && Place(c, p) && !Misfit(c, v, m, e)
    ensures
      var r := ReadElements(c, v, Null, m, e);
      r.Ok? && At(r.value, p) == if Chosen(e, p) then At(v, p) else Null
  {
    ProjectionCopiesTaken(c, v, Null, m, e, p);
    ChosenButNotTaken(e, v, p);
    NullIsNullEverywhere(p);
  }

  /** An overlay takes the source wherever it has something, at every depth. */
  lemma {:induction false} OverlayTakesSource(c: Cfg, dst: Value, src: Value, p: seq<nat>)
    requires NoChoice(c) && Fits(c, dst) && Fits(c, src) && Place(c, p)
    ensures At(WriteElements(c, dst, src), p) == if At(src, p) != Null then At(src, p) else At(dst, p)
    decreases c
  {
    if c.Sequence? && src.Fields? {
      var i, q := p[0], p[1..];
      assert NoChoice(c.fields[i]) && At(Slot(c.fields, dst, i), q) == At(dst, p);
      OverlayTakesSource(c.fields[i], Slot(c.fields, dst, i), src.fs[i], q);
    }
  }
}
