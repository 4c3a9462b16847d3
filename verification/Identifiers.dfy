/** Which identifiers a value carries and which ones a match compares, told along the paths to the
    flagged leaves and structures. */
module Identifiers {
  import opened Schema
  import opened Masks
  import opened Keys

  /** The path leads through unflagged structures to a flagged leaf or structure. */
  predicate Mark(c: Cfg, p: seq<nat>)
    decreases |p|
  {
    if p == [] then Flagged(c) && (c.Leaf? || c.Sequence?)
    else c.Sequence? && !Flagged(c) && p[0] < |c.fields| && Mark(c.fields[p[0]], p[1..])
  }

  /** It ends at a structure, which identifies as a whole. */
  predicate WholeMark(c: Cfg, p: seq<nat>)
    decreases |p|
  {
    if p == [] then Flagged(c) && c.Sequence?
    else c.Sequence? && !Flagged(c) && p[0] < |c.fields| && WholeMark(c.fields[p[0]], p[1..])
  }

  /** Bit 0 and bit 1 of the flags: identifier and sub-identifier. */
  lemma FlagBits(c: Cfg)
    ensures Flagged(c) <==> c.flags % 4 != 0
  {
  }

  ghost predicate HasMark(c: Cfg, v: Value) {
    exists p :: Mark(c, p) && At(v, p) != Null
  }

  lemma MarkIn(c: Cfg, v: Value, i: nat, p: seq<nat>)
    requires c.Sequence? && !Flagged(c) && i < |c.fields| && Fits(c, v)
    ensures Mark(c, [i] + p) <==> Mark(c.fields[i], p)
    ensures WholeMark(c, [i] + p) <==> WholeMark(c.fields[i], p)
    ensures At(v, [i] + p) == if v.Fields? then At(v.fs[i], p) else Null
  {
    assert ([i] + p)[1..] == p;
  }

  /** A value has identifiers exactly when something stands at one of the marks. */
  lemma {:induction false} IdentifiersAreMarks(c: Cfg, v: Value)
    requires NoChoice(c) && Fits(c, v)
    ensures HasIdentifiers(c, v) <==> HasMark(c, v)
    decreases c
  {
    if (c.Leaf? || c.Sequence?) && Flagged(c) {
      assert Mark(c, []) && At(v, []) == v;
      forall p | Mark(c, p) ensures p == [] {
      }
    } else if c.Sequence? && v.Fields? {
      forall i | 0 <= i < |c.fields| ensures HasIdentifiers(c.fields[i], v.fs[i]) <==> HasMark(c.fields[i], v.fs[i]) {
        IdentifiersAreMarks(c.fields[i], v.fs[i]);
      }
      if HasIdentifiers(c, v) {
        var i :| 0 <= i < |c.fields| && HasIdentifiers(c.fields[i], v.fs[i]);
        var p :| Mark(c.fields[i], p) && At(v.fs[i], p) != Null;
        MarkIn(c, v, i, p);
      }
      if HasMark(c, v) {
        var p :| Mark(c, p) && At(v, p) != Null;
        assert p != [] && Mark(c.fields[p[0]], p[1..]) && At(v.fs[p[0]], p[1..]) == At(v, p);
        assert HasMark(c.fields[p[0]], v.fs[p[0]]);
      }
    }
  }

  /** No stub on the way and no flag on a list: every mark can be compared. */
  predicate Comparable(c: Cfg)
    decreases c
  {
    match c
    case Sequence(_, _, fields) =>
      NoChoice(c) && (Flagged(c) || forall i | 0 <= i < |fields| :: Comparable(fields[i]))
    case List(_, _, _, elem) => NoChoice(c) && !Flagged(c)
    case Leaf(_, _, _) => true
    case _ => false
  }

  /** The second path runs through the structure the first one ends in a field of. */
  predicate Beside(p: seq<nat>, q: seq<nat>)
    requires p != []
    decreases |p|
  {
    q != [] && (|p| == 1 || (p[0] == q[0] && Beside(p[1..], q[1..])))
  }

  /** The source has an identifier in the structure around the mark. */
  ghost predicate Around(c: Cfg, s: Value, p: seq<nat>)
    requires p != []
  {
    exists q :: Mark(c, q) && Beside(p, q) && At(s, q) != Null
  }

  /** What a match asks of one mark. A flagged leaf that the source leaves out is not compared; a
      flagged structure is, null or not, once the structure around it has some identifier. */
  ghost predicate Agrees(c: Cfg, v: Value, s: Value, p: seq<nat>) {
    if WholeMark(c, p) then (p == [] || Around(c, s, p)) ==> At(v, p) == At(s, p)
    else At(s, p) == Null || At(v, p) == At(s, p)
  }

  lemma {:induction false} WholeMarkIsMark(c: Cfg, p: seq<nat>)
    requires WholeMark(c, p)
    ensures Mark(c, p)
    decreases |p|
  {
    if p != [] {
      WholeMarkIsMark(c.fields[p[0]], p[1..]);
    }
  }

  lemma AroundIn(c: Cfg, s: Value, i: nat, p: seq<nat>)
    requires c.Sequence? && !Flagged(c) && i < |c.fields| && s.Fields? && Fits(c, s) && p != []
    ensures Around(c, s, [i] + p) <==> Around(c.fields[i], s.fs[i], p)
  {
    var full := [i] + p;
    assert full[1..] == p;
    if Around(c.fields[i], s.fs[i], p) {
      var q :| Mark(c.fields[i], q) && Beside(p, q) && At(s.fs[i], q) != Null;
      MarkIn(c, s, i, q);
      var long := [i] + q;
      assert long[1..] == q && Beside(full, long);
    }
    if Around(c, s, full) {
      var q :| Mark(c, q) && Beside(full, q) && At(s, q) != Null;
      assert Mark(c.fields[i], q[1..]) && Beside(p, q[1..]) && At(s.fs[i], q[1..]) != Null;
    }
  }

  lemma {:induction false} AgreesIn(c: Cfg, v: Value, s: Value, i: nat, p: seq<nat>)
    requires c.Sequence? && !Flagged(c) && NoChoice(c) && i < |c.fields| && Fits(c, v) && Fits(c, s)
    requires v.Fields? && s.Fields? && HasMark(c, s)
    ensures Agrees(c, v, s, [i] + p) <==> Agrees(c.fields[i], v.fs[i], s.fs[i], p)
  {
    MarkIn(c, v, i, p);
    MarkIn(c, s, i, p);
    if p == [] {
      assert [i] + p == [i];
      var q :| Mark(c, q) && At(s, q) != Null;
      assert q != [] && Beside([i], q);
      assert Around(c, s, [i]);
    } else {
      AroundIn(c, s, i, p);
    }
  }

  /** A match compares exactly the marks, as told by the values there. */
  lemma {:induction false} MatchComparesMarks(c: Cfg, v: Value, s: Value)
    requires Comparable(c) && NoChoice(c) && Fits(c, v) && Fits(c, s)
    ensures IdentifiersMatch(c, v, s) <==> forall p | Mark(c, p) :: Agrees(c, v, s, p)
    decreases c
  {
    IdentifiersAreMarks(c, s);
    CompareIsEquality(c, v, s);
    if (c.Leaf? || c.Sequence?) && Flagged(c) {
      assert Mark(c, []);
      forall p | Mark(c, p) ensures p == [] {
      }
      assert At(v, []) == v && At(s, []) == s && (WholeMark(c, []) <==> c.Sequence?);
      assert IdentifiersMatch(c, v, s) <==> Agrees(c, v, s, []);
    } else if c.Sequence? {
      if !HasMark(c, s) {
        UnmarkedAgrees(c, v, s);
      } else if v.Null? {
        MissingDisagrees(c, v, s);
      } else {
        FieldsCompareMarks(c, v, s);
      }
    }
  }

  lemma UnmarkedAgrees(c: Cfg, v: Value, s: Value)
    requires c.Sequence? && !Flagged(c) && Fits(c, s) && !HasMark(c, s)
    ensures forall p | Mark(c, p) :: Agrees(c, v, s, p)
  {
    forall p | Mark(c, p) ensures Agrees(c, v, s, p) {
      assert At(s, p) == Null;
      assert p != [];
    }
  }

  lemma {:induction false} BesideItself(p: seq<nat>)
    requires p != []
    ensures Beside(p, p)
    decreases |p|
  {
    if |p| > 1 {
      BesideItself(p[1..]);
    }
  }

  lemma MissingDisagrees(c: Cfg, v: Value, s: Value)
    requires c.Sequence? && !Flagged(c) && Fits(c, s) && HasMark(c, s) && v.Null?
    ensures !forall p | Mark(c, p) :: Agrees(c, v, s, p)
  {
    var p :| Mark(c, p) && At(s, p) != Null;
    assert p != [] && At(v, p) == Null;
    BesideItself(p);
    assert Around(c, s, p);
    assert !Agrees(c, v, s, p);
  }

  lemma {:induction false} FieldsCompareMarks(c: Cfg, v: Value, s: Value)
    requires c.Sequence? && !Flagged(c) && Comparable(c) && NoChoice(c) && Fits(c, v) && Fits(c, s)
    requires v.Fields? && HasMark(c, s)
    ensures IdentifiersMatch(c, v, s) <==> forall p | Mark(c, p) :: Agrees(c, v, s, p)
    decreases c, 0
  {
    IdentifiersAreMarks(c, s);
    assert s.Fields?;
    forall i | 0 <= i < |c.fields|
      ensures IdentifiersMatch(c.fields[i], v.fs[i], s.fs[i])
         <==> forall p | Mark(c.fields[i], p) :: Agrees(c, v, s, [i] + p)
    {
      MatchComparesMarks(c.fields[i], v.fs[i], s.fs[i]);
      forall p | Mark(c.fields[i], p)
        ensures Agrees(c, v, s, [i] + p) <==> Agrees(c.fields[i], v.fs[i], s.fs[i], p)
      {
        AgreesIn(c, v, s, i, p);
      }
    }
    if IdentifiersMatch(c, v, s) {
      forall p | Mark(c, p) ensures Agrees(c, v, s, p) {
        assert p == [p[0]] + p[1..];
        assert Mark(c.fields[p[0]], p[1..]);
      }
    }
    if forall p | Mark(c, p) :: Agrees(c, v, s, p) {
      forall i | 0 <= i < |c.fields| ensures IdentifiersMatch(c.fields[i], v.fs[i], s.fs[i]) {
        forall p | Mark(c.fields[i], p) ensures Agrees(c, v, s, [i] + p) {
          MarkIn(c, v, i, p);
        }
      }
    }
  }

  /** No structure identifies as a whole. */
  ghost predicate LeafKeys(c: Cfg) {
    forall p :: !WholeMark(c, p)
  }

  /** With leaves as identifiers: an item matches exactly when it has every identifier that the
      source gives; the ones the source leaves out do not count. */
  lemma PartialSourceMatches(c: Cfg, v: Value, s: Value)
    requires Comparable(c) && NoChoice(c) && LeafKeys(c) && Fits(c, v) && Fits(c, s)
    ensures IdentifiersMatch(c, v, s) <==> forall p | Mark(c, p) && At(s, p) != Null :: At(v, p) == At(s, p)
  {
    MatchComparesMarks(c, v, s);
    forall p | Mark(c, p) ensures Agrees(c, v, s, p) <==> (At(s, p) != Null ==> At(v, p) == At(s, p)) {
      assert !WholeMark(c, p);
    }
  }

  /** The configuration at the end of a path. */
  function CfgAt(c: Cfg, p: seq<nat>): Cfg
    requires Place(c, p)
    decreases |p|
  {
    if p == [] then c else CfgAt(c.fields[p[0]], p[1..])
  }

  /** A partial write takes the source wherever it has something, except into keyed lists, which are
      written as lists. */
  lemma {:induction false} PartialTakesSource(c: Cfg, dst: Value, src: Value, p: seq<nat>)
    requires NoChoice(c) && Fits(c, dst) && Fits(c, src) && Place(c, p)
    ensures NoChoice(CfgAt(c, p)) && Fits(CfgAt(c, p), At(dst, p)) && Fits(CfgAt(c, p), At(src, p))
    ensures
      var leaf, w := CfgAt(c, p), At(WritePartial(c, dst, src), p);
      if leaf.List? && leaf.keyed then w == WritePartial(leaf, At(dst, p), At(src, p))
      else w == if At(src, p) != Null then At(src, p) else At(dst, p)
    decreases c
  {
    if c.Sequence? {
      var i, q := p[0], p[1..];
      var x, y := Slot(c.fields, dst, i), if src.Fields? then src.fs[i] else Null;
      assert NoChoice(c.fields[i]) && Fits(c.fields[i], Null) && Fits(c.fields[i], x) && Fits(c.fields[i], y);
      assert At(x, q) == At(dst, p) && At(y, q) == At(src, p);
      PartialTakesSource(c.fields[i], x, y, q);
      NullWritesNothing(c.fields[i], x);
    }
  }
}
