/** Identifiers as keys: list items with full, unique identifiers stay that way under merging, and
    merging the same source twice is merging it once, through every level of nested lists. */
module Merging {
  import opened Schema
  import opened Elements
  import opened KeyedMerge
  import opened Keys

  /** Leaves, sequences, simple lists, and keyed lists whose items have identifiers; identifiers
      themselves are harmless. */
  predicate Orderly(c: Cfg)
    ensures Orderly(c) ==> KeySafe(c)
    decreases c
  {
    match c
    case Leaf(_, _, _) => true
    case Sequence(_, _, fields) =>
      (Flagged(c) ==> Harmless(c)) && forall i | 0 <= i < |fields| :: Orderly(fields[i])
    case List(_, _, keyed, elem) => !Flagged(c) && NoChoice(elem) && (keyed ==> Identifying(elem) && Orderly(elem))
    case _ => false
  }

  /** Every identifier of the schema is present. */
  predicate FullKey(c: Cfg, v: Value)
    requires Fits(c, v)
    decreases c
  {
    Identifying(c) ==>
      !v.Null? &&
      (c.Sequence? && !Flagged(c) ==> forall i | 0 <= i < |c.fields| :: FullKey(c.fields[i], v.fs[i]))
  }

  /** The identifiers of a value, everything else blanked out. */
  function Key(c: Cfg, v: Value): Value
    requires Fits(c, v)
    decreases c
  {
    if !Identifying(c) then Null
    else if c.Sequence? && !Flagged(c) && v.Fields? then
      Fields(seq(|c.fields|, i requires 0 <= i < |c.fields| => Key(c.fields[i], v.fs[i])))
    else v
  }

  /** In every keyed list inside, the items have full identifiers, no two the same ones. */
  ghost predicate Tidy(c: Cfg, v: Value)
    requires Fits(c, v)
    decreases c, 0
  {
    match c
    case Sequence(_, _, fields) => v.Fields? ==> forall i | 0 <= i < |fields| :: Tidy(fields[i], v.fs[i])
    case List(_, _, keyed, elem) => keyed && v.Items? ==> UniquelyIdentified(elem, v.items)
    case _ => true
  }

  /** An item with full identifiers, tidy inside. */
  ghost function Complete(elem: Cfg): Value -> bool
    decreases elem, 1
  {
    v => Fits(elem, v) && FullKey(elem, v) && Tidy(elem, v)
  }

  function KeyOf(elem: Cfg): Value -> Value {
    v => if Fits(elem, v) then Key(elem, v) else Null
  }

  /** Complete items, no two with the same identifiers. */
  ghost predicate UniquelyIdentified(elem: Cfg, xs: seq<Value>)
    decreases elem, 2
  {
    UniqueKeys(Complete(elem), KeyOf(elem), xs)
  }

  // ---------------------------------------------------------------- keys and matches

  lemma {:induction false} FullKeyHasIdentifiers(c: Cfg, v: Value)
    requires Orderly(c) && Fits(c, v) && FullKey(c, v)
    ensures HasIdentifiers(c, v) == Identifying(c)
    decreases c
  {
    match c
    case Sequence(_, _, fields) =>
      if v.Fields? && !Flagged(c) {
        forall i | 0 <= i < |fields| ensures HasIdentifiers(fields[i], v.fs[i]) == Identifying(fields[i]) {
          if Identifying(c) {
            FullKeyHasIdentifiers(fields[i], v.fs[i]);
          } else {
            NoKeyNoIdentifiers(fields[i], v.fs[i]);
          }
        }
      }
    case _ =>
  }

  /** Between values with full keys, matching is equality of keys: symmetric and transitive,
      which it is not in general. */
  lemma {:induction false} MatchIsKeyEquality(c: Cfg, v: Value, s: Value)
    requires Orderly(c) && Fits(c, v) && Fits(c, s) && FullKey(c, v) && FullKey(c, s)
    ensures IdentifiersMatch(c, v, s) <==> Key(c, v) == Key(c, s)
    decreases c
  {
    FullKeyHasIdentifiers(c, s);
    CompareIsEquality(c, v, s);
    match c
    case Sequence(_, _, fields) =>
      if Identifying(c) && !Flagged(c) {
        var kv, ks := Key(c, v), Key(c, s);
        forall i | 0 <= i < |fields|
          ensures IdentifiersMatch(fields[i], v.fs[i], s.fs[i]) <==> kv.fs[i] == ks.fs[i]
        {
          MatchIsKeyEquality(fields[i], v.fs[i], s.fs[i]);
        }
        assert kv == ks <==> forall i | 0 <= i < |fields| :: kv.fs[i] == ks.fs[i];
      }
    case _ =>
  }

  lemma {:induction false} PartialKeepsFullKey(c: Cfg, v: Value, s: Value)
    requires Orderly(c) && Fits(c, v) && Fits(c, s) && FullKey(c, v)
    ensures FullKey(c, WritePartial(c, v, s))
    decreases c
  {
    match c
    case Sequence(_, _, fields) =>
      if Identifying(c) && s.Fields? && !Flagged(c) {
        var w := WritePartial(c, v, s);
        forall i | 0 <= i < |fields| ensures FullKey(fields[i], w.fs[i]) {
          PartialKeepsFullKey(fields[i], v.fs[i], s.fs[i]);
        }
      }
    case _ =>
  }

  /** A matching source leaves the key of the item alone. */
  lemma {:induction false} MatchedWriteKeepsKey(c: Cfg, v: Value, s: Value)
    requires Orderly(c) && Fits(c, v) && Fits(c, s) && FullKey(c, v) && FullKey(c, s)
    requires Key(c, v) == Key(c, s)
    ensures FullKey(c, WritePartial(c, v, s)) && Key(c, WritePartial(c, v, s)) == Key(c, v)
  {
    var w := WritePartial(c, v, s);
    PartialKeepsFullKey(c, v, s);
    MatchIsKeyEquality(c, v, s);
    MatchIsKeyEquality(c, v, v);
    SafeIsSettled(c, s);
    MatchedWriteKeepsMatches(c, v, s, v);
    MatchIsKeyEquality(c, w, v);
  }

  // ---------------------------------------------------------------- writing twice

  /** A partial write into a tidy value keeps it tidy, a second one of the same source changes
      nothing, and a tidy value written over itself is unchanged. */
  lemma {:induction false} TidyWrites(c: Cfg, v: Value, s: Value)
    requires Orderly(c) && Fits(c, v) && Fits(c, s) && Tidy(c, v) && Tidy(c, s)
    ensures
      var w := WritePartial(c, v, s);
      Tidy(c, w) && WritePartial(c, w, s) == w && WritePartial(c, s, s) == s
    decreases c, 1
  {
    match c
    case Sequence(_, _, fields) =>
      if s.Fields? {
        var w := WritePartial(c, v, s);
        var again, self := WritePartial(c, w, s), WritePartial(c, s, s);
        forall i | 0 <= i < |fields|
          ensures Tidy(fields[i], w.fs[i]) && again.fs[i] == w.fs[i] && self.fs[i] == s.fs[i]
        {
          TidyWrites(fields[i], Slot(fields, v, i), s.fs[i]);
        }
        assert again.fs == w.fs && self.fs == s.fs;
      }
    case List(_, _, keyed, elem) =>
      if keyed && s.Items? && s.items != [] {
        var old_ := if v.Null? then [] else v.items;
        assert UniquelyIdentified(elem, old_) && UniquelyIdentified(elem, s.items);
        assert Complete(elem)(s.items[0]);
        FullKeyHasIdentifiers(elem, s.items[0]);
        ItemMergeIsIdempotent(elem, old_, s.items);
        ItemMergeIsIdempotent(elem, s.items, s.items);
        SelfMergeIsFixed(elem, s.items);
      }
    case _ =>
  }

  lemma {:induction false} SelfMergeIsFixed(elem: Cfg, items: seq<Value>)
    requires Orderly(elem) && UniquelyIdentified(elem, items)
    ensures Merge(ItemMatcher(elem), ItemWriter(elem), items, items) == items
    decreases elem, 4
  {
    var good, key, matches, write := Complete(elem), KeyOf(elem), ItemMatcher(elem), ItemWriter(elem);
    ItemsAreKeyed(elem);
    forall j | 0 <= j < |items| ensures Fixed(matches, write, items, items[j]) {
      assert good(items[j]) && matches(items[j], items[j]);
      var p := FirstMatch(matches, items, items[j]);
      assert good(items[p]) && key(items[p]) == key(items[j]);
      assert p == j && write(items[j], items[j]) == items[j];
    }
    MergeFixed(matches, write, items, items);
  }

  lemma {:induction false} ItemsAreKeyed(elem: Cfg)
    requires Orderly(elem)
    ensures KeyedBy(Complete(elem), KeyOf(elem), ItemMatcher(elem), ItemWriter(elem))
    decreases elem, 3
  {
    var good, key, matches, write := Complete(elem), KeyOf(elem), ItemMatcher(elem), ItemWriter(elem);
    forall v: Value, s: Value | good(v) && good(s) ensures matches(v, s) <==> key(v) == key(s) {
      MatchIsKeyEquality(elem, v, s);
    }
    forall v: Value, s: Value | good(v) && good(s) && key(v) == key(s)
      ensures good(write(v, s)) && key(write(v, s)) == key(v)
    {
      MatchedWriteKeepsKey(elem, v, s);
      TidyWrites(elem, v, s);
    }
    forall v: Value, s: Value | good(v) && good(s) ensures write(write(v, s), s) == write(v, s) {
      TidyWrites(elem, v, s);
    }
    forall s: Value | good(s) ensures write(s, s) == s {
      TidyWrites(elem, s, s);
    }
  }

  /** Merging uniquely identified items keeps them so, in place and in order, and merging the
      same source again changes nothing; nested keyed lists are merged likewise. */
  lemma {:induction false} ItemMergeIsIdempotent(elem: Cfg, items: seq<Value>, src: seq<Value>)
    requires Orderly(elem) && UniquelyIdentified(elem, items) && UniquelyIdentified(elem, src)
    ensures
      var matches, write := ItemMatcher(elem), ItemWriter(elem);
      var m := Merge(matches, write, items, src);
      && UniquelyIdentified(elem, m)
      && (forall i | 0 <= i < |items| :: KeyOf(elem)(m[i]) == KeyOf(elem)(items[i]))
      && Merge(matches, write, m, src) == m
    decreases elem, 4
  {
    ItemsAreKeyed(elem);
    MergeWithUniqueKeys(Complete(elem), KeyOf(elem), ItemMatcher(elem), ItemWriter(elem), items, src);
    KeyedMerge.MergeIsIdempotent(Complete(elem), KeyOf(elem), ItemMatcher(elem), ItemWriter(elem), items, src);
  }
}
