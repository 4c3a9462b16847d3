/** Structure and list buffers updated in place: the loops of the sequence and list operations,
    each proved against the value-level operation it implements. */
module Buffers {
  import opened Schema
  import opened Elements
  import opened KeyedMerge
  import opened Keys
  import opened Selection
  import opened Selectors

  /** The walk every in-place operation makes: entry after entry, each updated on its own. */
  method UpdateEach<T>(f: (nat, T) --> T, ar: array<T>)
    requires forall i | 0 <= i < ar.Length :: f.requires(i, ar[i])
    modifies ar
    ensures forall i | 0 <= i < ar.Length :: ar[i] == f(i, old(ar[i]))
  {
    var i := 0;
    while i < ar.Length
      invariant 0 <= i <= ar.Length
      invariant forall j | 0 <= j < i :: ar[j] == f(j, old(ar[j]))
      invariant forall j | i <= j < ar.Length :: ar[j] == old(ar[j])
    {
      ar[i] := f(i, ar[i]);
      i := i + 1;
    }
  }

  method CopyPrefix<T>(from: array<T>, to: array<T>)
    requires from.Length <= to.Length && from != to
    modifies to
    ensures to[..from.Length] == from[..]
    ensures forall i | from.Length <= i < to.Length :: to[i] == old(to[i])
  {
    var i := 0;
    while i < from.Length
      invariant 0 <= i <= from.Length
      invariant forall j | 0 <= j < i :: to[j] == from[j]
      invariant forall j | i <= j < to.Length :: to[j] == old(to[j])
    {
      to[i] := from[i];
      i := i + 1;
    }
  }

  /** Deep write of a list item into an entry. */
  function CopyInto(elem: Cfg): (Value, Value) -> Value
    requires NoChoice(elem)
  {
    NoChoiceIsWellFormed(elem);
    (v: Value, s: Value) => if Fits(elem, v) && Fits(elem, s) then Schema.Write(elem, v, s) else s
  }

  lemma NullTakesCopies(elem: Cfg)
    requires NoChoice(elem)
    ensures forall s :: CopyInto(elem)(Null, s) == s
  {
    forall s: Value ensures CopyInto(elem)(Null, s) == s {
      if Fits(elem, s) {
        WriteCopies(elem, Null, s);
      }
    }
  }

  lemma {:induction false} FilterWhole<T>(p: T -> bool, xs: seq<T>)
    requires |Filter(p, xs)| == |xs|
    ensures Filter(p, xs) == xs
  {
    if xs != [] {
      FilterWhole(p, xs[1..]);
    }
  }

  lemma {:induction false} ReadSlotsMakeWhole(c: Cfg, v: Value, dst: Value, m: Cfg, e: Value, rs: seq<Value>)
    requires c.Sequence? && m.Sequence? && v.Fields? && e.Fields? && |rs| == |c.fields|
    requires NoChoice(c) && Fits(c, v) && Fits(c, dst) && Fits(m, e) && !IsEmpty(m, e)
    requires forall i | 0 <= i < |rs| :: ReadSlot(c, v, dst, m, e, i) == Ok(rs[i])
    ensures ReadElements(c, v, dst, m, e) == Ok(Fields(rs))
  {
    forall i | 0 <= i < |c.fields| ensures ReadSlot(c, v, dst, m, e, i).Ok? {
      assert ReadSlot(c, v, dst, m, e, i) == Ok(rs[i]);
    }
    assert ReadElements(c, v, dst, m, e).Ok?;
    assert ReadElements(c, v, dst, m, e).value.fs == rs;
  }

  /** A structure slot: a pointer to the field slots, null when not allocated. */
  class RecordBuffer {
    var fs: array?<Value>

    function View(): Value
      reads this, fs
    {
      if fs == null then Null else Fields(fs[..])
    }

    constructor ()
      ensures View() == Null && fs == null
    {
      fs := null;
    }

    method CreateEmpty(c: Cfg)
      requires c.Sequence? && WellFormed(c)
      modifies this
      ensures fs != null && fresh(fs) && fs.Length == |c.fields| && Fits(c, View())
      ensures forall i | 0 <= i < |c.fields| :: fs[i] == Zero(c.fields[i])
    {
      fs := new Value[|c.fields|](i requires 0 <= i < |c.fields| => Zero(c.fields[i]));
    }

    method Write(c: Cfg, src: Value)
      requires c.Sequence? && WellFormed(c) && Fits(c, View()) && Fits(c, src)
      modifies this, fs
      ensures View() == Schema.Write(c, old(View()), src)
    {
      ghost var before := View();
      if src.Null? {
        SelfDeletable(c, before);
        fs := null;
        return;
      }
      if fs == null {
        CreateEmpty(c);
      }
      assert forall i | 0 <= i < |c.fields| :: fs[i] == Slot(c.fields, before, i);
      UpdateEach((i: nat, v: Value) requires i < |c.fields| && Fits(c.fields[i], v) =>
                   Schema.Write(c.fields[i], v, src.fs[i]), fs);
      assert View().fs == Schema.Write(c, before, src).fs;
    }

    method WriteElements(c: Cfg, src: Value)
      requires c.Sequence? && NoChoice(c) && Fits(c, View()) && Fits(c, src)
      modifies this, fs
      ensures View() == Elements.WriteElements(c, old(View()), src)
    {
      ghost var before := View();
      if src.Null? {
        return;
      }
      if fs == null {
        NoChoiceIsWellFormed(c);
        CreateEmpty(c);
      }
      assert forall i | 0 <= i < |c.fields| :: fs[i] == Slot(c.fields, before, i);
      UpdateEach((i: nat, v: Value) requires i < |c.fields| && Fits(c.fields[i], v) =>
                   Elements.WriteElements(c.fields[i], v, src.fs[i]), fs);
      assert View().fs == Elements.WriteElements(c, before, src).fs;
    }

    method WritePartial(c: Cfg, src: Value)
      requires c.Sequence? && WellKeyed(c) && Fits(c, View()) && Fits(c, src) && Sourced(c, src)
      modifies this, fs
      ensures View() == Keys.WritePartial(c, old(View()), src)
    {
      ghost var before := View();
      if src.Null? {
        return;
      }
      if fs == null {
        NoChoiceIsWellFormed(c);
        CreateEmpty(c);
      }
      assert forall i | 0 <= i < |c.fields| :: fs[i] == Slot(c.fields, before, i);
      UpdateEach((i: nat, v: Value) requires i < |c.fields| && Fits(c.fields[i], v) =>
                   Keys.WritePartial(c.fields[i], v, src.fs[i]), fs);
      assert View().fs == Keys.WritePartial(c, before, src).fs;
    }

    method DeleteElements(c: Cfg, m: Cfg, e: Value)
      requires c.Sequence? && NoChoice(c) && Fits(c, View()) && Fits(m, e)
      modifies this, fs
      ensures View() == Elements.DeleteElements(c, old(View()), m, e)
    {
      ghost var before := View();
      if !m.Sequence? || fs == null || e.Null? {
        return;
      }
      if IsEmpty(m, e) {
        fs := null;
        return;
      }
      var v := View();
      UpdateEach((i: nat, _: Value) requires i < |c.fields| => DeleteSlot(c, v, m, e, i), fs);
      assert View().fs == Elements.DeleteElements(c, before, m, e).fs;
    }

    /** Reads into this buffer; the walk stops at the first field whose mask has the wrong
        shape. */
    method ReadElements(c: Cfg, v: Value, m: Cfg, e: Value) returns (ok: bool)
      requires c.Sequence? && NoChoice(c) && Fits(c, View()) && Fits(c, v) && Fits(m, e)
      modifies this, fs
      ensures ok <==> Elements.ReadElements(c, v, old(View()), m, e).Ok?
      ensures ok ==> View() == Elements.ReadElements(c, v, old(View()), m, e).value
    {
      ghost var before := View();
      if !m.Sequence? {
        return false;
      }
      if v.Null? || e.Null? {
        return true;
      }
      NoChoiceIsWellFormed(c);
      if IsEmpty(m, e) {
        fs := null;
        Write(c, v);
        WriteCopies(c, Null, v);
        return true;
      }
      if fs == null {
        CreateEmpty(c);
      }
      assert forall i | 0 <= i < |c.fields| :: fs[i] == Slot(c.fields, before, i);
      var dst := View();
      var i := 0;
      while i < fs.Length
        invariant 0 <= i <= fs.Length == |c.fields|
        invariant forall j | 0 <= j < i :: ReadSlot(c, v, before, m, e, j) == Ok(fs[j])
        invariant forall j | i <= j < fs.Length :: fs[j] == dst.fs[j]
        modifies fs
      {
        var r := ReadSlot(c, v, dst, m, e, i);
        assert r == ReadSlot(c, v, before, m, e, i);
        if r.Err? {
          return false;
        }
        fs[i] := r.value;
        i := i + 1;
      }
      ReadSlotsMakeWhole(c, v, before, m, e, fs[..]);
      return true;
    }
  }

  /** The merge on buffers: count, allocate only when something is appended, fill. */
  method MergeBuffers<T(!new)>(matches: Matcher<T>, write: Writer<T>, copy: Writer<T>,
                               ar: array?<T>, srcAr: array<T>, blank: T) returns (newAr: array?<T>)
    requires Stable(matches, write) && srcAr != ar && forall s :: copy(blank, s) == s
    modifies ar
    ensures newAr == null || newAr == ar || fresh(newAr)
    ensures newAr == null <==> ar == null && srcAr.Length == 0
    ensures newAr != null ==>
      newAr[..] == Merge(matches, write, if ar == null then [] else old(ar[..]), old(srcAr[..]))
  {
    if ar == null && srcAr.Length == 0 {
      return null;
    }
    var oldAr := ar;
    if oldAr == null {
      oldAr := new T[0](_ => blank);
    }
    ghost var items := oldAr[..];
    var newSize := CountMerged(matches, write, oldAr, srcAr);
    newAr := oldAr;
    if newSize > oldAr.Length {
      newAr := new T[newSize](_ => blank);
      CopyPrefix(oldAr, newAr);
    }
    SecondPassIsMerge(matches, write, items, srcAr[..]);
    assert newAr[..oldAr.Length] == items;
    FillMerged(matches, write, copy, newAr, oldAr.Length, srcAr);
    assert newAr[..newAr.Length] == newAr[..];
  }

  /** A list slot: buffer pointer and size. */
  class ListBuffer {
    var ar: array?<Value>
    var size: nat

    ghost predicate Valid()
      reads this
    {
      size == if ar == null then 0 else ar.Length
    }

    function View(): Value
      reads this, ar
    {
      if ar == null then Null else Items(ar[..])
    }

    function Contents(): seq<Value>
      reads this, ar
    {
      if ar == null then [] else ar[..]
    }

    constructor ()
      ensures Valid() && View() == Null
    {
      ar, size := null, 0;
    }

    method Delete()
      modifies this
      ensures Valid() && View() == Null
    {
      ar, size := null, 0;
    }

    method Write(c: Cfg, src: ListBuffer)
      requires c.List? && WellFormed(c) && Valid() && src.Valid() && src != this
      requires Fits(c, View()) && Fits(c, src.View()) && (src.ar == null || src.ar != ar)
      modifies this, ar
      ensures Valid() && View() == Schema.Write(c, old(View()), src.View())
    {
      ghost var before := View();
      SelfDeletable(c, before);
      if src.ar == null {
        Delete();
        return;
      }
      if ar != null && size != src.size {
        Delete();
      }
      if ar == null {
        ar := new Value[src.size](_ => Zero(c.elem));
      }
      size := src.size;
      var s := src.ar[..];
      assert forall i | 0 <= i < size :: ar[i] == Entry(c.elem, before, size, i);
      UpdateEach((i: nat, v: Value) requires i < |s| && Fits(c.elem, v) => Schema.Write(c.elem, v, s[i]), ar);
      assert View().items == Schema.Write(c, before, src.View()).items;
    }

    method Compare(a: Cfg, other: ListBuffer, b: Cfg) returns (same: bool)
      requires a.List? && b.List? && Valid() && other.Valid() && Fits(a, View()) && Fits(b, other.View())
      ensures same <==> Schema.Compare(a, View(), b, other.View())
    {
      if ar == null || other.ar == null {
        return ar == null && other.ar == null;
      }
      if size != other.size {
        return false;
      }
      var i := 0;
      while i < size
        invariant 0 <= i <= size
        invariant forall j | 0 <= j < i :: Schema.Compare(a.elem, ar[..][j], b.elem, other.ar[..][j])
      {
        if !Schema.Compare(a.elem, ar[..][i], b.elem, other.ar[..][i]) {
          return false;
        }
        i := i + 1;
      }
      return true;
    }

    /** Merges keyed items: the count of the first pass is exactly what the second appends, so
        the new buffer is filled and not overrun. */
    method MergeData(elem: Cfg, src: ListBuffer)
      requires WellKeyed(elem) && AllFit(elem, Contents()) && AllFit(elem, src.Contents())
      requires AllSourced(elem, src.Contents())
      requires Valid() && src.Valid() && src != this && src.ar != null && src.ar != ar
      modifies this, ar
      ensures Valid() && Contents() == Merge(ItemMatcher(elem), ItemWriter(elem), old(Contents()), src.Contents())
      ensures ar == null <==> old(ar) == null && Contents() == []
    {
      SafeItemsAreStable(elem);
      NullTakesCopies(elem);
      var newAr := MergeBuffers(ItemMatcher(elem), ItemWriter(elem), CopyInto(elem), ar, src.ar, Null);
      ar, size := newAr, if newAr == null then 0 else newAr.Length;
    }

    /** Writes the first source item's non-null fields over the selected items. */
    method CopyToSelectedData(elem: Cfg, src: ListBuffer, sc: Cfg, s: Value)
      requires elem.Sequence? && NoChoice(elem) && AllFit(elem, Contents()) && AllFit(elem, src.Contents())
      requires Valid() && src.Valid() && src != this && Fits(sc, s) && (src.ar != null ==> src.size > 0)
      modifies ar
      ensures |Contents()| == |old(Contents())|
      ensures forall i | 0 <= i < |Contents()| ::
        Contents()[i] ==
          if src.ar != null && SelectorsMatch(elem, old(Contents())[i], sc, s)
          then WriteElements(elem, old(Contents())[i], old(src.Contents())[0])
          else old(Contents())[i]
    {
      if src.ar == null || ar == null {
        return;
      }
      var x := src.ar[0];
      UpdateEach((_: nat, v: Value) requires Fits(elem, v) =>
                   if SelectorsMatch(elem, v, sc, s) then WriteElements(elem, v, x) else v, ar);
    }

    /** Partial write of a keyed list without selectors: merged when the first source item has
        identifiers, otherwise the first source item goes over every item. */
    method WritePartial(c: Cfg, src: ListBuffer)
      requires c.List? && c.keyed && WellKeyed(c) && Fits(c, View()) && Fits(c, src.View())
      requires Valid() && src.Valid() && src != this && (src.ar == null || src.ar != ar)
      requires src.ar != null && src.size == 0 ==> size == 0
      requires AllSourced(c.elem, src.Contents())
      modifies this, ar
      ensures Valid() && View() == Keys.WritePartial(c, old(View()), src.View())
    {
      if src.ar == null || src.size == 0 {
        return;
      }
      var x := src.ar[0];
      if HasIdentifiers(c.elem, x) {
        MergeData(c.elem, src);
      } else if ar != null {
        ghost var before := View();
        UpdateEach((_: nat, v: Value) requires Fits(c.elem, v) => Keys.WritePartial(c.elem, v, x), ar);
        assert View().items == Keys.WritePartial(c, before, src.View()).items;
      }
    }

    /** Removes the selected items and keeps the others in order. Where a zero-size allocation
        yields null, a deletion of every item does nothing at all. */
    method DeleteListItems(elem: Cfg, sc: Cfg, s: Value, zeroSizeAllocates: bool)
      requires elem.Sequence? && Valid() && AllFit(elem, Contents()) && Fits(sc, s)
      modifies this
      ensures Valid()
      ensures
        var kept := Filter(Not(SelectorOf(elem, sc, s)), old(Contents()));
        Contents() == if kept == [] && !zeroSizeAllocates then old(Contents()) else kept
      ensures ar == null <==> old(ar) == null
    {
      var p := SelectorOf(elem, sc, s);
      if ar == null {
        return;
      }
      var newSize := CountWhere(Not(p), ar);
      if newSize == size {
        FilterWhole(Not(p), ar[..]);
        return;
      }
      if newSize == 0 && !zeroSizeAllocates {
        return;
      }
      var newAr := new Value[newSize](_ => Null);
      FillWhere(Not(p), (_: Value, v: Value) => v, ar, newAr);
      ar, size := newAr, newSize;
    }

    /** Removes the masked fields from the selected items. */
    method DeleteListItemsElements(elem: Cfg, sc: Cfg, s: Value, m: Cfg, e: Value)
      requires elem.Sequence? && NoChoice(elem) && AllFit(elem, Contents()) && Fits(sc, s) && Fits(m, e)
      modifies ar
      ensures |Contents()| == |old(Contents())|
      ensures forall i | 0 <= i < |Contents()| ::
        Contents()[i] ==
          if SelectorsMatch(elem, old(Contents())[i], sc, s) then DeleteElements(elem, old(Contents())[i], m, e)
          else old(Contents())[i]
    {
      if ar == null {
        return;
      }
      UpdateEach((_: nat, v: Value) requires Fits(elem, v) =>
                   if SelectorsMatch(elem, v, sc, s) then DeleteElements(elem, v, m, e) else v, ar);
    }

    /** Nothing without selectors and elements; whole items with selectors alone; otherwise the
        masked fields of the selected items, which without selectors are all. */
    method DeletePartial(elem: Cfg, sc: Cfg, s: Value, m: Cfg, e: Value, zeroSizeAllocates: bool)
      requires elem.Sequence? && NoChoice(elem) && Valid() && AllFit(elem, Contents())
      requires Fits(sc, s) && Fits(m, e)
      modifies this, ar
      ensures Valid() && (ar == null <==> old(ar) == null)
      ensures IsNull(sc, s) && IsNull(m, e) ==> Contents() == old(Contents())
      ensures !IsNull(sc, s) && IsNull(m, e) ==>
        var kept := Filter(Not(SelectorOf(elem, sc, s)), old(Contents()));
        Contents() == if kept == [] && !zeroSizeAllocates then old(Contents()) else kept
      ensures !IsNull(m, e) ==> |Contents()| == |old(Contents())|
      ensures !IsNull(m, e) ==>
        forall i | 0 <= i < |Contents()| ::
          Contents()[i] ==
            if SelectorsMatch(elem, old(Contents())[i], sc, s)
            then DeleteElements(elem, old(Contents())[i], m, e)
            else old(Contents())[i]
    {
      if IsNull(sc, s) && IsNull(m, e) {
        return;
      }
      if IsNull(m, e) {
        DeleteListItems(elem, sc, s, zeroSizeAllocates);
      } else {
        DeleteListItemsElements(elem, sc, s, m, e);
      }
    }

    /** Fills `dst` with the items that agree with the match data, in order. */
    method CopyMatching(elem: Cfg, dst: ListBuffer, s: Value)
      requires elem.Sequence? && NoChoice(elem) && Valid() && dst != this && Fits(elem, s)
      requires AllFit(elem, Contents())
      modifies dst
      ensures dst.Valid()
      ensures
        var r := Filter(SelectorOf(elem, elem, s), Contents());
        dst.View() == if r == [] then Null else Items(r)
    {
      dst.Delete();
      if ar == null {
        return;
      }
      var p := SelectorOf(elem, elem, s);
      var n := CountWhere(p, ar);
      if n == 0 {
        return;
      }
      var newAr := new Value[n](_ => Null);
      NullTakesCopies(elem);
      FillWhere(p, CopyInto(elem), ar, newAr);
      dst.ar, dst.size := newAr, n;
    }
  }
}
