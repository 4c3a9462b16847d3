/** The keyed list merge over items of any kind: `matches(item, source)` tells whether an item
    carries the source's identifiers, `write(item, source)` writes the source over it. */
module KeyedMerge {

  type Matcher<!T> = (T, T) -> bool
  type Writer<!T> = (T, T) -> T

  /** Position of the first item matching `s`, or the length when none does. */
  function FirstMatch<T>(matches: Matcher<T>, items: seq<T>, s: T): (k: nat)
    ensures k <= |items|
    ensures k < |items| ==> matches(items[k], s)
    ensures forall j | 0 <= j < k :: !matches(items[j], s)
  {
    if items == [] || matches(items[0], s) then 0
    else 1 + FirstMatch(matches, items[1..], s)
  }

  /** The sources whose first match is item `k`, in order; with `k` the length, the sources
      that match nothing. */
  function AimedAt<T>(matches: Matcher<T>, items: seq<T>, src: seq<T>, k: nat): (r: seq<T>)
    ensures k < |items| ==> forall i | 0 <= i < |r| :: matches(items[k], r[i])
  {
    if src == [] then []
    else
      var rest := AimedAt(matches, items, src[1..], k);
      if FirstMatch(matches, items, src[0]) == k then [src[0]] + rest else rest
  }

  /** `v` with every source written over it in turn. */
  function Overlaid<T>(write: Writer<T>, v: T, srcs: seq<T>): T {
    if srcs == [] then v else Overlaid(write, write(v, srcs[0]), srcs[1..])
  }

  /** The merge: every old item in place, overlaid in turn by the sources that first match it,
      then the sources that match no old item, in order. All matches are against the items
      as they were before the merge. */
  function Merge<T>(matches: Matcher<T>, write: Writer<T>, items: seq<T>, src: seq<T>): (r: seq<T>)
    ensures |r| == |items| + |AimedAt(matches, items, src, |items|)|
  {
    MergedItems(matches, write, items, src) + AimedAt(matches, items, src, |items|)
  }

  /** The old items, each overlaid by the sources aimed at it. */
  function MergedItems<T>(matches: Matcher<T>, write: Writer<T>, items: seq<T>, src: seq<T>): (r: seq<T>)
    ensures |r| == |items|
  {
    seq(|items|, k requires 0 <= k < |items| => Overlaid(write, items[k], AimedAt(matches, items, src, k)))
  }

  /** Writing a matching source over an item changes none of the item's matches. */
  ghost predicate Stable<T(!new)>(matches: Matcher<T>, write: Writer<T>) {
    forall v: T, s: T, t: T :: matches(v, s) ==> matches(write(v, s), t) == matches(v, t)
  }

  // ------------------------------------------------------------ one more source

  lemma {:induction false} AimedAtSnoc<T>(matches: Matcher<T>, items: seq<T>, src: seq<T>, s: T, k: nat)
    ensures AimedAt(matches, items, src + [s], k)
         == AimedAt(matches, items, src, k) + if FirstMatch(matches, items, s) == k then [s] else []
  {
    if src == [] {
      assert src + [s] == [s];
    } else {
      AimedAtSnoc(matches, items, src[1..], s, k);
      assert (src + [s])[1..] == src[1..] + [s];
    }
  }

  lemma {:induction false} OverlaidSnoc<T>(write: Writer<T>, v: T, srcs: seq<T>, s: T)
    ensures Overlaid(write, v, srcs + [s]) == write(Overlaid(write, v, srcs), s)
    decreases |srcs|
  {
    if srcs == [] {
      assert srcs + [s] == [s];
    } else {
      OverlaidSnoc(write, write(v, srcs[0]), srcs[1..], s);
      assert (srcs + [s])[1..] == srcs[1..] + [s];
    }
  }

  /** However many matching sources were written over an item, it matches what it matched
      at the start. */
  lemma {:induction false} OverlaidKeepsMatches<T(!new)>(
    matches: Matcher<T>, write: Writer<T>, v: T, srcs: seq<T>, t: T)
    requires Stable(matches, write)
    requires forall i | 0 <= i < |srcs| :: matches(v, srcs[i])
    ensures matches(Overlaid(write, v, srcs), t) == matches(v, t)
    decreases |srcs|
  {
    if srcs != [] {
      OverlaidKeepsMatches(matches, write, write(v, srcs[0]), srcs[1..], t);
    }
  }

  /** Looking a source up among the partly merged items finds what looking it up among the
      original items finds. */
  lemma {:induction false} LookupSurvivesMerge<T(!new)>(
    matches: Matcher<T>, write: Writer<T>, items: seq<T>, src: seq<T>, s: T)
    requires Stable(matches, write)
    ensures FirstMatch(matches, Merge(matches, write, items, src)[..|items|], s) == FirstMatch(matches, items, s)
  {
    var m := Merge(matches, write, items, src)[..|items|];
    forall k | 0 <= k < |items| ensures matches(m[k], s) == matches(items[k], s) {
      OverlaidKeepsMatches(matches, write, items[k], AimedAt(matches, items, src, k), s);
    }
    var a, b := FirstMatch(matches, m, s), FirstMatch(matches, items, s);
    assert !(a < b) && !(b < a);
  }

  /** The merge, one source at a time: write over the first match among the old positions,
      or append. */
  lemma {:induction false} MergeSnoc<T>(matches: Matcher<T>, write: Writer<T>, items: seq<T>, src: seq<T>, s: T)
    ensures
      var m, k := Merge(matches, write, items, src), FirstMatch(matches, items, s);
      Merge(matches, write, items, src + [s]) == if k < |items| then m[k := write(m[k], s)] else m + [s]
  {
    MergedItemsSnoc(matches, write, items, src, s);
    AimedAtSnoc(matches, items, src, s, |items|);
    var head, tail := MergedItems(matches, write, items, src), AimedAt(matches, items, src, |items|);
    var k := FirstMatch(matches, items, s);
    if k < |items| {
      UpdateInFront(head, tail, k, write(head[k], s));
    } else {
      assert head + (tail + [s]) == head + tail + [s];
    }
  }

  lemma UpdateInFront<T>(head: seq<T>, tail: seq<T>, k: nat, x: T)
    requires k < |head|
    ensures (head + tail)[k] == head[k] && head[k := x] + (tail + []) == (head + tail)[k := x]
  {
  }

  lemma MergedItemsSnoc<T>(matches: Matcher<T>, write: Writer<T>, items: seq<T>, src: seq<T>, s: T)
    ensures
      var m, k := MergedItems(matches, write, items, src), FirstMatch(matches, items, s);
      MergedItems(matches, write, items, src + [s]) == if k < |items| then m[k := write(m[k], s)] else m
  {
    var m, m' := MergedItems(matches, write, items, src), MergedItems(matches, write, items, src + [s]);
    var k := FirstMatch(matches, items, s);
    forall j | 0 <= j < |items| ensures m'[j] == if j == k then write(m[j], s) else m[j] {
      MergedItemSnoc(matches, write, items, src, s, j);
    }
  }

  lemma MergedItemSnoc<T>(matches: Matcher<T>, write: Writer<T>, items: seq<T>, src: seq<T>, s: T, j: nat)
    requires j < |items|
    ensures
      Overlaid(write, items[j], AimedAt(matches, items, src + [s], j))
      == var v := Overlaid(write, items[j], AimedAt(matches, items, src, j));
         if j == FirstMatch(matches, items, s) then write(v, s) else v
  {
    var a := AimedAt(matches, items, src, j);
    AimedAtSnoc(matches, items, src, s, j);
    OverlaidSnoc(write, items[j], a, s);
    assert a + [] == a;
  }

  /** What holds of all items and sources and survives a write holds of the merged items. */
  lemma {:induction false} MergeKeeps<T(!new)>(
    p: T -> bool, matches: Matcher<T>, write: Writer<T>, items: seq<T>, src: seq<T>)
    requires forall i | 0 <= i < |items| :: p(items[i])
    requires forall i | 0 <= i < |src| :: p(src[i])
    requires forall v, s | p(v) && p(s) :: p(write(v, s))
    ensures forall i | 0 <= i < |Merge(matches, write, items, src)| :: p(Merge(matches, write, items, src)[i])
    decreases |src|
  {
    if src == [] {
      assert Merge(matches, write, items, src) == items;
    } else {
      var n := |src| - 1;
      var m, k := Merge(matches, write, items, src[..n]), FirstMatch(matches, items, src[n]);
      MergeKeeps(p, matches, write, items, src[..n]);
      MergeSnoc(matches, write, items, src[..n], src[n]);
      assert src == src[..n] + [src[n]];
      assert k < |items| ==> p(write(m[k], src[n]));
    }
  }

  // ------------------------------------------------------------ the two passes

  method GetItemMatching<T>(matches: Matcher<T>, ar: array<T>, n: nat, s: T) returns (k: nat)
    requires n <= ar.Length
    ensures k == FirstMatch(matches, ar[..n], s)
  {
    k := 0;
    while k < n
      invariant k <= n
      invariant forall j | 0 <= j < k :: !matches(ar[..n][j], s)
    {
      if matches(ar[..n][k], s) {
        return;
      }
      k := k + 1;
    }
  }

  /** Pass one: the size of the merged list. */
  method CountMerged<T>(matches: Matcher<T>, ghost write: Writer<T>, ar: array<T>, srcAr: array<T>)
    returns (newSize: nat)
    ensures newSize == |Merge(matches, write, ar[..], srcAr[..])|
  {
    ghost var items, src := ar[..], srcAr[..];
    newSize := ar.Length;
    var i := 0;
    while i < srcAr.Length
      invariant 0 <= i <= srcAr.Length
      invariant newSize == ar.Length + |AimedAt(matches, items, src[..i], ar.Length)|
    {
      assert ar[..ar.Length] == items;
      var k := GetItemMatching(matches, ar, ar.Length, srcAr[i]);
      if k == ar.Length {
        newSize := newSize + 1;
      }
      AimedAtSnoc(matches, items, src[..i], src[i], ar.Length);
      assert src[..i + 1] == src[..i] + [src[i]];
      i := i + 1;
    }
    assert src[..i] == src;
  }

  /** What one source does to the entries filled so far, of which the first `n` are the old
      items: it goes over the first of those that matches it by then, or behind everything. */
  function PlaceOne<T>(matches: Matcher<T>, write: Writer<T>, n: nat, cur: seq<T>, s: T): (r: seq<T>)
    requires n <= |cur|
    ensures |cur| <= |r| <= |cur| + 1
  {
    var k := FirstMatch(matches, cur[..n], s);
    if k < n then cur[k := write(cur[k], s)] else cur + [s]
  }

  /** Pass two: one source after another. */
  function SecondPass<T>(matches: Matcher<T>, write: Writer<T>, n: nat, cur: seq<T>, src: seq<T>): (r: seq<T>)
    requires n <= |cur|
    ensures |r| >= |cur|
    decreases |src|
  {
    if src == [] then cur
    else SecondPass(matches, write, n, PlaceOne(matches, write, n, cur, src[0]), src[1..])
  }

  lemma SecondPassStep<T>(matches: Matcher<T>, write: Writer<T>, n: nat, cur: seq<T>, src: seq<T>, i: nat)
    requires n <= |cur| && i < |src|
    ensures
      SecondPass(matches, write, n, cur, src[i..])
      == SecondPass(matches, write, n, PlaceOne(matches, write, n, cur, src[i]), src[i + 1..])
  {
    assert src[i..][1..] == src[i + 1..];
  }

  /** One turn of the loop: `j` entries are filled before it, `j'` after it. */
  method Place<T(!new)>(matches: Matcher<T>, write: Writer<T>, copy: Writer<T>, newAr: array<T>, n: nat, j: nat, s: T)
    returns (j': nat)
    requires n <= j <= newAr.Length && |PlaceOne(matches, write, n, newAr[..j], s)| <= newAr.Length
    requires j < newAr.Length ==> copy(newAr[j], s) == s
    modifies newAr
    ensures j <= j' <= newAr.Length && newAr[..j'] == PlaceOne(matches, write, n, old(newAr[..j]), s)
    ensures forall x | j' <= x < newAr.Length :: newAr[x] == old(newAr[x])
  {
    ghost var cur := newAr[..j];
    assert cur[..n] == newAr[..n];
    var k := GetItemMatching(matches, newAr, n, s);
    if k < n {
      newAr[k] := write(newAr[k], s);
      j' := j;
      assert newAr[..j] == cur[k := write(cur[k], s)];
    } else {
      newAr[j] := copy(newAr[j], s);
      j' := j + 1;
      assert newAr[..j'] == cur + [s];
    }
  }

  /** The loop of pass two, in a buffer with room for what it appends. */
  method FillMerged<T(!new)>(matches: Matcher<T>, write: Writer<T>, copy: Writer<T>,
                             newAr: array<T>, n: nat, srcAr: array<T>)
    requires newAr != srcAr && n <= newAr.Length
    requires |SecondPass(matches, write, n, newAr[..n], srcAr[..])| <= newAr.Length
    requires forall x, s | n <= x < newAr.Length :: copy(newAr[x], s) == s
    modifies newAr
    ensures
      var r := SecondPass(matches, write, n, old(newAr[..n]), srcAr[..]);
      newAr[..|r|] == r && forall x | |r| <= x < newAr.Length :: newAr[x] == old(newAr[x])
  {
    ghost var src := srcAr[..];
    ghost var r := SecondPass(matches, write, n, newAr[..n], src);
    var i, j := 0, n;
    assert src[0..] == src;
    while i < srcAr.Length
      invariant 0 <= i <= srcAr.Length && srcAr[..] == src
      invariant n <= j <= |r| <= newAr.Length
      invariant SecondPass(matches, write, n, newAr[..j], src[i..]) == r
      invariant forall x | j <= x < newAr.Length :: newAr[x] == old(newAr[x])
    {
      SecondPassStep(matches, write, n, newAr[..j], src, i);
      j := Place(matches, write, copy, newAr, n, j, srcAr[i]);
      i := i + 1;
    }
  }

  // ------------------------------------------------------------ when the passes agree

  lemma PlaceOneMerges<T(!new)>(matches: Matcher<T>, write: Writer<T>, items: seq<T>, src: seq<T>, s: T)
    requires Stable(matches, write)
    ensures PlaceOne(matches, write, |items|, Merge(matches, write, items, src), s)
         == Merge(matches, write, items, src + [s])
  {
    LookupSurvivesMerge(matches, write, items, src, s);
    MergeSnoc(matches, write, items, src, s);
  }

  /** Stable matches make pass two compute the merge. */
  lemma {:induction false} SecondPassResumes<T(!new)>(
    matches: Matcher<T>, write: Writer<T>, items: seq<T>, src: seq<T>, i: nat)
    requires Stable(matches, write) && i <= |src|
    ensures
      SecondPass(matches, write, |items|, Merge(matches, write, items, src[..i]), src[i..])
      == Merge(matches, write, items, src)
    decreases |src| - i
  {
    if i == |src| {
      assert src[..i] == src;
    } else {
      PlaceOneMerges(matches, write, items, src[..i], src[i]);
      assert src[..i + 1] == src[..i] + [src[i]];
      SecondPassStep(matches, write, |items|, Merge(matches, write, items, src[..i]), src, i);
      SecondPassResumes(matches, write, items, src, i + 1);
    }
  }

  lemma {:induction false} SecondPassIsMerge<T(!new)>(matches: Matcher<T>, write: Writer<T>, items: seq<T>, src: seq<T>)
    requires Stable(matches, write)
    ensures SecondPass(matches, write, |items|, items, src) == Merge(matches, write, items, src)
  {
    SecondPassResumes(matches, write, items, src, 0);
    assert src[0..] == src && Merge(matches, write, items, src[..0]) == items;
  }

  /** One item, a source that matches it, and a second source: what each pass makes of them. */
  lemma TwoSourcesOnOneItem<T>(matches: Matcher<T>, write: Writer<T>, v: T, s: T, t: T)
    requires matches(v, s)
    ensures |Merge(matches, write, [v], [s, t])| == if matches(v, t) then 1 else 2
    ensures |SecondPass(matches, write, 1, [v], [s, t])| == if matches(write(v, s), t) then 1 else 2
  {
    var items, src := [v], [s, t];
    assert src == ([] + [s]) + [t];
    AimedAtSnoc(matches, items, [], s, 1);
    AimedAtSnoc(matches, items, [] + [s], t, 1);
    assert FirstMatch(matches, items, s) == 0;
    assert FirstMatch(matches, items, t) == if matches(v, t) then 0 else 1;
    var w := write(v, s);
    assert items[..1] == items && items[0 := w] == [w] && [w][..1] == [w];
    assert src[1..] == [t] && [t][1..] == [];
    assert FirstMatch(matches, [w], t) == if matches(w, t) then 0 else 1;
    assert SecondPass(matches, write, 1, items, src) == SecondPass(matches, write, 1, [w], [t]);
    var last := if matches(w, t) then [w][0 := write(w, t)] else [w] + [t];
    assert SecondPass(matches, write, 1, [w], [t]) == SecondPass(matches, write, 1, last, []);
  }

  /** The first pass counts exactly what the second pass produces, whatever the items. */
  ghost predicate CountsAgree<T(!new)>(matches: Matcher<T>, write: Writer<T>) {
    forall items: seq<T>, src: seq<T> ::
      |SecondPass(matches, write, |items|, items, src)| == |Merge(matches, write, items, src)|
  }

  /** For any matching and any writing: the count is right for all lists exactly when a matching
      write changes no match. */
  lemma {:induction false} CountsAgreeExactlyWhenStable<T(!new)>(matches: Matcher<T>, write: Writer<T>)
    ensures CountsAgree(matches, write) <==> Stable(matches, write)
  {
    if Stable(matches, write) {
      forall items: seq<T>, src: seq<T>
        ensures |SecondPass(matches, write, |items|, items, src)| == |Merge(matches, write, items, src)|
      {
        SecondPassIsMerge(matches, write, items, src);
      }
    } else {
      var v, s, t :| matches(v, s) && matches(write(v, s), t) != matches(v, t);
      TwoSourcesOnOneItem(matches, write, v, s, t);
      var items, src := [v], [s, t];
      assert |SecondPass(matches, write, |items|, items, src)| != |Merge(matches, write, items, src)|;
    }
  }

  // ------------------------------------------------------------ unique keys, idempotence

  /** `key` tells good items apart exactly as `matches` does, a matching write keeps it, and
      writing a source twice is writing it once. */
  ghost predicate KeyedBy<T(!new), K(!new)>(good: T -> bool, key: T -> K, matches: Matcher<T>, write: Writer<T>) {
    && (forall v, s {:trigger matches(v, s)} | good(v) && good(s) :: matches(v, s) <==> key(v) == key(s))
    && (forall v, s {:trigger write(v, s)} | good(v) && good(s) && key(v) == key(s) ::
          good(write(v, s)) && key(write(v, s)) == key(v))
    && (forall v, s {:trigger write(write(v, s), s)} | good(v) && good(s) :: write(write(v, s), s) == write(v, s))
    && (forall s {:trigger write(s, s)} | good(s) :: write(s, s) == s)
  }

  ghost predicate UniqueKeys<T(!new), K>(good: T -> bool, key: T -> K, xs: seq<T>) {
    && (forall i | 0 <= i < |xs| :: good(xs[i]))
    && (forall i, j | 0 <= i < j < |xs| :: key(xs[i]) != key(xs[j]))
  }

  /** Some item has the key of `s` and absorbs it. */
  ghost predicate Absorbed<T(!new), K>(key: T -> K, write: Writer<T>, m: seq<T>, s: T) {
    exists p | 0 <= p < |m| :: key(m[p]) == key(s) && write(m[p], s) == m[p]
  }

  ghost predicate HasKey<T(!new), K>(key: T -> K, xs: seq<T>, k: K) {
    exists j | 0 <= j < |xs| :: key(xs[j]) == k
  }

  /** What merging `src` into `items` makes: unique keys, every old key in place, only source
      keys behind them, and every source absorbed. */
  ghost predicate MergedByKey<T(!new), K>(
    good: T -> bool, key: T -> K, write: Writer<T>, items: seq<T>, src: seq<T>, m: seq<T>)
  {
    && |items| <= |m| && UniqueKeys(good, key, m)
    && (forall i | 0 <= i < |items| :: key(m[i]) == key(items[i]))
    && (forall i | |items| <= i < |m| :: HasKey(key, src, key(m[i])))
    && (forall j | 0 <= j < |src| :: Absorbed(key, write, m, src[j]))
  }

  lemma {:induction false} WriteKeepsMergedByKey<T(!new), K(!new)>(
    good: T -> bool, key: T -> K, matches: Matcher<T>, write: Writer<T>,
    items: seq<T>, src: seq<T>, m: seq<T>, s: T, k: nat)
    requires KeyedBy(good, key, matches, write) && MergedByKey(good, key, write, items, src, m)
    requires good(s) && !HasKey(key, src, key(s)) && k < |items| && key(items[k]) == key(s)
    ensures MergedByKey(good, key, write, items, src + [s], m[k := write(m[k], s)])
  {
    var m', all := m[k := write(m[k], s)], src + [s];
    assert key(m'[k]) == key(s) && write(write(m[k], s), s) == m'[k];
    assert forall i | 0 <= i < |m| :: good(m'[i]) && key(m'[i]) == key(m[i]);
    forall j | 0 <= j < |all| ensures Absorbed(key, write, m', all[j]) {
      if j < |src| {
        assert Absorbed(key, write, m, src[j]);
        var p :| 0 <= p < |m| && key(m[p]) == key(src[j]) && write(m[p], src[j]) == m[p];
        assert p != k;
        assert m'[p] == m[p];
      }
    }
    forall i | |items| <= i < |m'| ensures HasKey(key, all, key(m'[i])) {
      var j :| 0 <= j < |src| && key(src[j]) == key(m[i]);
      assert all[j] == src[j];
    }
  }

  lemma {:induction false} AppendKeepsMergedByKey<T(!new), K(!new)>(
    good: T -> bool, key: T -> K, matches: Matcher<T>, write: Writer<T>,
    items: seq<T>, src: seq<T>, m: seq<T>, s: T)
    requires KeyedBy(good, key, matches, write) && MergedByKey(good, key, write, items, src, m)
    requires good(s) && !HasKey(key, src, key(s)) && !HasKey(key, items, key(s))
    ensures MergedByKey(good, key, write, items, src + [s], m + [s])
  {
    var m', all := m + [s], src + [s];
    assert all[|src|] == s && m'[|m|] == s && write(s, s) == s;
    forall i | 0 <= i < |m| ensures key(m[i]) != key(s) {
      if i < |items| {
        assert key(m[i]) == key(items[i]);
      } else {
        assert HasKey(key, src, key(m[i]));
      }
    }
    forall j | 0 <= j < |all| ensures Absorbed(key, write, m', all[j]) {
      if j < |src| {
        assert Absorbed(key, write, m, src[j]);
        var p :| 0 <= p < |m| && key(m[p]) == key(src[j]) && write(m[p], src[j]) == m[p];
        assert m'[p] == m[p];
      }
    }
    forall i | |items| <= i < |m'| ensures HasKey(key, all, key(m'[i])) {
      if i < |m| {
        var j :| 0 <= j < |src| && key(src[j]) == key(m[i]);
        assert all[j] == src[j];
      }
    }
  }

  /** Merging keeps keys unique and leaves every source absorbed. */
  lemma {:induction false} MergeWithUniqueKeys<T(!new), K(!new)>(
    good: T -> bool, key: T -> K, matches: Matcher<T>, write: Writer<T>, items: seq<T>, src: seq<T>)
    requires KeyedBy(good, key, matches, write)
    requires UniqueKeys(good, key, items) && UniqueKeys(good, key, src)
    ensures MergedByKey(good, key, write, items, src, Merge(matches, write, items, src))
    decreases |src|
  {
    if src == [] {
      assert Merge(matches, write, items, src) == items;
    } else {
      var n := |src| - 1;
      var prior, s := src[..n], src[n];
      assert src == prior + [s];
      MergeWithUniqueKeys(good, key, matches, write, items, prior);
      MergeSnoc(matches, write, items, prior, s);
      var m, k := Merge(matches, write, items, prior), FirstMatch(matches, items, s);
      if k < |items| {
        WriteKeepsMergedByKey(good, key, matches, write, items, prior, m, s, k);
      } else {
        forall i | 0 <= i < |items| ensures key(items[i]) != key(s) {
          assert !matches(items[i], s);
        }
        AppendKeepsMergedByKey(good, key, matches, write, items, prior, m, s);
      }
    }
  }

  /** The first match of `s` is there and unchanged by it. */
  ghost predicate Fixed<T(!new)>(matches: Matcher<T>, write: Writer<T>, items: seq<T>, s: T) {
    var p := FirstMatch(matches, items, s);
    p < |items| && write(items[p], s) == items[p]
  }

  lemma MergeFixedStep<T(!new)>(matches: Matcher<T>, write: Writer<T>, items: seq<T>, src: seq<T>, s: T)
    requires Merge(matches, write, items, src) == items && Fixed(matches, write, items, s)
    ensures Merge(matches, write, items, src + [s]) == items
  {
    var p := FirstMatch(matches, items, s);
    MergeSnoc(matches, write, items, src, s);
    assert items[p := items[p]] == items;
  }

  lemma {:induction false} MergeFixed<T(!new)>(matches: Matcher<T>, write: Writer<T>, items: seq<T>, src: seq<T>)
    requires forall j | 0 <= j < |src| :: Fixed(matches, write, items, src[j])
    ensures Merge(matches, write, items, src) == items
    decreases |src|
  {
    if src == [] {
    } else {
      var n := |src| - 1;
      MergeFixed(matches, write, items, src[..n]);
      MergeFixedStep(matches, write, items, src[..n], src[n]);
      assert src == src[..n] + [src[n]];
    }
  }

  /** Merging the same source again changes nothing. */
  lemma {:induction false} MergeIsIdempotent<T(!new), K(!new)>(
    good: T -> bool, key: T -> K, matches: Matcher<T>, write: Writer<T>, items: seq<T>, src: seq<T>)
    requires KeyedBy(good, key, matches, write)
    requires UniqueKeys(good, key, items) && UniqueKeys(good, key, src)
    ensures
      var m := Merge(matches, write, items, src);
      UniqueKeys(good, key, m) && Merge(matches, write, m, src) == m
  {
    MergeWithUniqueKeys(good, key, matches, write, items, src);
    var m := Merge(matches, write, items, src);
    forall j | 0 <= j < |src| ensures Fixed(matches, write, m, src[j]) {
      assert Absorbed(key, write, m, src[j]);
      var q :| 0 <= q < |m| && key(m[q]) == key(src[j]) && write(m[q], src[j]) == m[q];
      assert FirstMatch(matches, m, src[j]) == q;
    }
    MergeFixed(matches, write, m, src);
  }
}
