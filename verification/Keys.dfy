/** Identifier flags, identifier matching, partial write and the keyed list merge. */
module Keys {
  import opened Schema
  import opened Elements
  import opened KeyedMerge

  /** Bit 0 marks an identifier, bit 1 a sub-identifier. */
  predicate Flagged(c: Cfg) {
    c.flags % 2 == 1 || (c.flags / 2) % 2 == 1
  }

  /** Some identifier is present in the value. Lists never report one, so that nested lists
      are merged on their own. */
  predicate HasIdentifiers(c: Cfg, v: Value)
    requires NoChoice(c) && Fits(c, v)
    decreases c
  {
    match c
    case Leaf(_, _, _) => !v.Null? && Flagged(c)
    case Sequence(_, _, fields) =>
      !v.Null? && (Flagged(c) || exists i | 0 <= i < |fields| :: HasIdentifiers(fields[i], v.fs[i]))
    case _ => false
  }

  /** The schema has identifiers. */
  predicate Identifying(c: Cfg)
    decreases c
  {
    match c
    case Leaf(_, _, _) => Flagged(c)
    case Sequence(_, _, fields) => Flagged(c) || exists i | 0 <= i < |fields| :: Identifying(fields[i])
    case _ => false
  }

  lemma {:induction false} NoKeyNoIdentifiers(c: Cfg, v: Value)
    requires NoChoice(c) && Fits(c, v) && !Identifying(c)
    ensures !HasIdentifiers(c, v)
    decreases c
  {
    if c.Sequence? && v.Fields? {
      forall i | 0 <= i < |c.fields| ensures !HasIdentifiers(c.fields[i], v.fs[i]) {
        NoKeyNoIdentifiers(c.fields[i], v.fs[i]);
      }
    }
  }

  /** Does the item `v` carry the identifiers of `src`? Identifiers absent from `src` match
      anything, except that a flagged sequence is compared whole. */
  predicate IdentifiersMatch(c: Cfg, v: Value, src: Value)
    requires NoChoice(c) && Fits(c, v) && Fits(c, src)
    decreases c
  {
    match c
    case Sequence(_, _, fields) =>
      if Flagged(c) then Compare(c, v, c, src)
      else if !HasIdentifiers(c, src) then true
      else v.Fields? && forall i | 0 <= i < |fields| :: IdentifiersMatch(fields[i], v.fs[i], src.fs[i])
    case Stub(_, _) => false
    case _ => !Flagged(c) || src.Null? || Compare(c, v, c, src)
  }

  /** No keyed list anywhere inside. */
  predicate Flat(c: Cfg)
    decreases c
  {
    match c
    case Sequence(_, _, fields) => forall i | 0 <= i < |fields| :: Flat(fields[i])
    case List(_, _, keyed, _) => !keyed
    case _ => true
  }

  /** Writing a value of this schema over itself changes nothing: every keyed list inside has
      elements that are identifiers as a whole. */
  predicate Harmless(c: Cfg)
    decreases c
  {
    match c
    case Sequence(_, _, fields) => forall i | 0 <= i < |fields| :: Harmless(fields[i])
    case List(_, _, keyed, elem) => !keyed || elem.Stub? || (!elem.List? && Flagged(elem) && Harmless(elem))
    case _ => true
  }

  /** A stub among the fields keeps any source with identifiers from matching. */
  predicate HasStub(fields: seq<Cfg>) {
    exists i | 0 <= i < |fields| :: fields[i].Stub?
  }

  /** Flagged sequences that can match are harmless, lists carry no flag, and there is no choice.
      The schema macros cannot flag a list either. */
  predicate KeySafe(c: Cfg)
    ensures KeySafe(c) ==> NoChoice(c)
    decreases c
  {
    match c
    case Leaf(_, _, _) => true
    case Sequence(_, _, fields) =>
      && NoChoice(c)
      && if Flagged(c) then Harmless(c) else HasStub(fields) || forall i | 0 <= i < |fields| :: KeySafe(fields[i])
    case List(_, _, _, elem) => !Flagged(c) && NoChoice(elem)
    case Choice(_, _, _) => false
    case Stub(_, _) => true
  }

  /** Safe keys here and among the items of every keyed list inside. */
  predicate WellKeyed(c: Cfg)
    ensures WellKeyed(c) ==> KeySafe(c)
    decreases c
  {
    KeySafe(c) &&
    match c
    case Sequence(_, _, fields) => forall i | 0 <= i < |fields| :: WellKeyed(fields[i])
    case List(_, _, keyed, elem) => keyed ==> WellKeyed(elem)
    case _ => true
  }

  /** No keyed list of the value is allocated with no items: the code would read the first one. */
  predicate Sourced(c: Cfg, v: Value)
    requires Fits(c, v)
    decreases c
  {
    match c
    case Sequence(_, _, fields) => v.Fields? ==> forall i | 0 <= i < |fields| :: Sourced(fields[i], v.fs[i])
    case List(_, _, keyed, elem) =>
      keyed && v.Items? ==> v.items != [] && forall i | 0 <= i < |v.items| :: Sourced(elem, v.items[i])
    case _ => true
  }

  predicate AllSourced(elem: Cfg, xs: seq<Value>)
    requires AllFit(elem, xs)
  {
    forall i | 0 <= i < |xs| :: Sourced(elem, xs[i])
  }

  predicate AllFit(elem: Cfg, xs: seq<Value>) {
    forall i | 0 <= i < |xs| :: Fits(elem, xs[i])
  }

  /** Identifier matching of list items, as the merge uses it. */
  function ItemMatcher(elem: Cfg): Matcher<Value>
    requires NoChoice(elem)
  {
    (v: Value, s: Value) => Fits(elem, v) && Fits(elem, s) && IdentifiersMatch(elem, v, s)
  }

  /** Partial write of list items, as the merge uses it. */
  function ItemWriter(elem: Cfg): (w: Writer<Value>)
    requires NoChoice(elem)
    ensures forall v, s | Fits(elem, v) && Fits(elem, s) :: Fits(elem, w(v, s))
    decreases elem, 1
  {
    (v: Value, s: Value) => if Fits(elem, v) && Fits(elem, s) then WritePartial(elem, v, s) else v
  }

  /** Partial write without selectors. A keyed list is merged when its first source item has
      identifiers; otherwise the first source item is written over every item. The merge
      is what the two-pass code computes on well-keyed items. */
  function WritePartial(c: Cfg, dst: Value, src: Value): (r: Value)
    requires NoChoice(c) && Fits(c, dst) && Fits(c, src)
    ensures Fits(c, r)
    decreases c, 0
  {
    match c
    case Sequence(_, _, fields) =>
      if src.Null? then dst
      else Fields(seq(|fields|, i requires 0 <= i < |fields| =>
                    WritePartial(fields[i], Slot(fields, dst, i), src.fs[i])))
    case List(_, _, keyed, elem) =>
      if !keyed then WriteElements(c, dst, src)
      else if src.Null? || src.items == [] then dst
      else if !HasIdentifiers(elem, src.items[0]) then
        if dst.Null? then Null
        else Items(seq(|dst.items|, i requires 0 <= i < |dst.items| => WritePartial(elem, dst.items[i], src.items[0])))
      else
        var items := if dst.Null? then [] else dst.items;
        MergeKeeps(v => Fits(elem, v), ItemMatcher(elem), ItemWriter(elem), items, src.items);
        Items(Merge(ItemMatcher(elem), ItemWriter(elem), items, src.items))
    case _ => WriteElements(c, dst, src)
  }

  // ------------------------------------------------------- partial writes keep the keys

  /** Without keyed lists a partial write is a field overlay. */
  lemma {:induction false} FlatPartialIsOverlay(c: Cfg, dst: Value, src: Value)
    requires NoChoice(c) && Flat(c) && Fits(c, dst) && Fits(c, src)
    ensures WritePartial(c, dst, src) == WriteElements(c, dst, src)
    decreases c
  {
    match c
    case Sequence(_, _, fields) =>
      if src.Fields? {
        var p, w := WritePartial(c, dst, src), WriteElements(c, dst, src);
        forall i | 0 <= i < |fields| ensures p.fs[i] == w.fs[i] {
          FlatPartialIsOverlay(fields[i], Slot(fields, dst, i), src.fs[i]);
        }
        assert p.fs == w.fs;
      }
    case _ =>
  }

  /** An identifier as a whole that matches a source either is that source or ignores it. */
  lemma WholeMatchIsFixed(elem: Cfg, v: Value, s: Value)
    requires NoChoice(elem) && !elem.List? && Flagged(elem) && Fits(elem, v) && Fits(elem, s)
    ensures IdentifiersMatch(elem, s, s) || elem.Stub?
    ensures IdentifiersMatch(elem, v, s) ==> s.Null? || v == s
  {
    CompareIsEquality(elem, v, s);
    CompareIsReflexive(elem, s);
  }

  lemma NullWritesNothing(c: Cfg, v: Value)
    requires NoChoice(c) && Fits(c, v)
    ensures Fits(c, Null) && WritePartial(c, v, Null) == v
  {
  }

  /** A value of a harmless schema written over itself is unchanged. */
  lemma {:induction false} SelfWriteIsIdentity(c: Cfg, v: Value)
    requires NoChoice(c) && Harmless(c) && Fits(c, v)
    ensures WritePartial(c, v, v) == v
    decreases c, 0
  {
    match c
    case Sequence(_, _, fields) =>
      if v.Fields? {
        var w := WritePartial(c, v, v);
        forall i | 0 <= i < |fields| ensures w.fs[i] == v.fs[i] {
          SelfWriteIsIdentity(fields[i], v.fs[i]);
        }
        assert w.fs == v.fs;
      }
    case List(_, _, keyed, elem) =>
      if keyed && v.Items? && v.items != [] {
        if HasIdentifiers(elem, v.items[0]) {
          SelfMergeIsIdentity(elem, v.items);
        } else {
          var w := WritePartial(c, v, v);
          forall i | 0 <= i < |v.items| ensures w.items[i] == v.items[i] {
            NullWritesNothing(elem, v.items[i]);
          }
          assert w.items == v.items;
        }
      }
    case _ =>
  }

  lemma {:induction false} SelfMergeIsIdentity(elem: Cfg, items: seq<Value>)
    requires NoChoice(elem) && !elem.List? && !elem.Stub? && Flagged(elem) && Harmless(elem) && AllFit(elem, items)
    ensures Merge(ItemMatcher(elem), ItemWriter(elem), items, items) == items
    decreases elem, 1
  {
    var matches, write := ItemMatcher(elem), ItemWriter(elem);
    forall j | 0 <= j < |items| ensures Fixed(matches, write, items, items[j]) {
      WholeMatchIsFixed(elem, items[j], items[j]);
      assert matches(items[j], items[j]);
      var p := FirstMatch(matches, items, items[j]);
      WholeMatchIsFixed(elem, items[p], items[j]);
      NullWritesNothing(elem, items[p]);
      SelfWriteIsIdentity(elem, items[p]);
    }
    MergeFixed(matches, write, items, items);
  }

  /** A null field cannot satisfy a source that carries identifiers, and neither can a
      structure that was only just allocated for identifier-free content. */
  lemma {:induction false} KeylessNeverMatches(c: Cfg, v: Value, t: Value)
    requires NoChoice(c) && Fits(c, v) && Fits(c, t)
    requires !HasIdentifiers(c, v) && HasIdentifiers(c, t)
    ensures !IdentifiersMatch(c, v, t)
    decreases c
  {
    match c
    case Leaf(_, _, _) =>
    case Sequence(_, _, fields) =>
      if !Flagged(c) && v.Fields? {
        var i :| 0 <= i < |fields| && HasIdentifiers(fields[i], t.fs[i]);
        KeylessNeverMatches(fields[i], v.fs[i], t.fs[i]);
      }
  }

  lemma StubNeverMatches(c: Cfg, v: Value, t: Value)
    requires c.Sequence? && !Flagged(c) && HasStub(c.fields) && NoChoice(c) && Fits(c, v) && Fits(c, t)
    ensures IdentifiersMatch(c, v, t) <==> !HasIdentifiers(c, t)
  {
    var i :| 0 <= i < |c.fields| && c.fields[i].Stub?;
    if v.Fields? && t.Fields? {
      assert !IdentifiersMatch(c.fields[i], v.fs[i], t.fs[i]);
    }
  }

  /** Writing identifier-free content never adds an identifier. */
  lemma {:induction false} KeylessWriteAddsNoKey(c: Cfg, v: Value, s: Value)
    requires NoChoice(c) && Fits(c, v) && Fits(c, s)
    requires !HasIdentifiers(c, s)
    ensures HasIdentifiers(c, WritePartial(c, v, s)) == HasIdentifiers(c, v)
    decreases c
  {
    match c
    case Sequence(_, _, fields) =>
      if s.Fields? {
        var w := WritePartial(c, v, s);
        forall i | 0 <= i < |fields|
          ensures HasIdentifiers(fields[i], w.fs[i]) == HasIdentifiers(fields[i], Slot(fields, v, i))
        {
          KeylessWriteAddsNoKey(fields[i], Slot(fields, v, i), s.fs[i]);
        }
      }
    case _ =>
  }

  /** No whole identifier of `s` changes when it is written over itself. */
  predicate Settled(c: Cfg, s: Value)
    requires NoChoice(c) && Fits(c, s)
    decreases c
  {
    match c
    case Sequence(_, _, fields) =>
      if Flagged(c) then WritePartial(c, s, s) == s
      else HasStub(fields) || (s.Fields? ==> forall i | 0 <= i < |fields| :: Settled(fields[i], s.fs[i]))
    case List(_, _, _, _) => !Flagged(c)
    case _ => true
  }

  lemma {:induction false} SafeIsSettled(c: Cfg, s: Value)
    requires KeySafe(c) && Fits(c, s)
    ensures Settled(c, s)
    decreases c
  {
    match c
    case Sequence(_, _, fields) =>
      if Flagged(c) {
        SelfWriteIsIdentity(c, s);
      } else if s.Fields? && !HasStub(fields) {
        forall i | 0 <= i < |fields| ensures Settled(fields[i], s.fs[i]) {
          SafeIsSettled(fields[i], s.fs[i]);
        }
      }
    case _ =>
  }

  /** Writing a matching source over an item changes no identifier match of that item, with
      any other source: the matches counted before a merge still hold during it. */
  lemma {:induction false} MatchedWriteKeepsMatches(c: Cfg, v: Value, s: Value, t: Value)
    requires NoChoice(c) && Fits(c, v) && Fits(c, s) && Fits(c, t) && Settled(c, s)
    requires !HasIdentifiers(c, s) || IdentifiersMatch(c, v, s)
    ensures IdentifiersMatch(c, WritePartial(c, v, s), t) == IdentifiersMatch(c, v, t)
    decreases c
  {
    match c
    case Leaf(_, _, _) =>
    case Sequence(_, _, fields) =>
      if Flagged(c) {
        CompareIsEquality(c, v, s);
      } else if s.Fields? && HasIdentifiers(c, t) {
        var w := WritePartial(c, v, s);
        if v.Null? {
          KeylessWriteAddsNoKey(c, v, s);
          KeylessNeverMatches(c, w, t);
        } else if HasStub(fields) {
          StubNeverMatches(c, v, t);
          StubNeverMatches(c, w, t);
        } else {
          forall i | 0 <= i < |fields|
            ensures IdentifiersMatch(fields[i], w.fs[i], t.fs[i]) == IdentifiersMatch(fields[i], v.fs[i], t.fs[i])
          {
            MatchedWriteKeepsMatches(fields[i], v.fs[i], s.fs[i], t.fs[i]);
          }
        }
      }
    case List(_, _, _, _) =>
    case Stub(_, _) =>
  }

  /** So the keyed merge may look matches up among items it has already written over. */
  lemma {:induction false} SafeItemsAreStable(elem: Cfg)
    requires KeySafe(elem)
    ensures Stable(ItemMatcher(elem), ItemWriter(elem))
  {
    var matches, write := ItemMatcher(elem), ItemWriter(elem);
    forall v: Value, s: Value, t: Value | matches(v, s) ensures matches(write(v, s), t) == matches(v, t) {
      if Fits(elem, t) {
        SafeIsSettled(elem, s);
        MatchedWriteKeepsMatches(elem, v, s, t);
      }
    }
  }
}
