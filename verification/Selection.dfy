/** Order-preserving selection from a list: the filter itself, and the count-then-fill loops
    and the iterator that implement it. */
module Selection {

  /** The items that satisfy `p`, in order. */
  function Filter<T>(p: T -> bool, xs: seq<T>): (r: seq<T>)
    ensures |r| <= |xs|
  {
    if xs == [] then []
    else if p(xs[0]) then [xs[0]] + Filter(p, xs[1..])
    else Filter(p, xs[1..])
  }

  function Not<T>(p: T -> bool): T -> bool {
    x => !p(x)
  }

  lemma TailOfAppend<T>(xs: seq<T>, ys: seq<T>)
    requires xs != []
    ensures (xs + ys)[0] == xs[0] && (xs + ys)[1..] == xs[1..] + ys
  {
  }

  lemma ConsAppend<T>(x: T, a: seq<T>, b: seq<T>)
    ensures [x] + (a + b) == ([x] + a) + b
  {
  }

  lemma {:induction false} FilterAppend<T>(p: T -> bool, xs: seq<T>, ys: seq<T>)
    ensures Filter(p, xs + ys) == Filter(p, xs) + Filter(p, ys)
  {
    if xs == [] {
      assert xs + ys == ys;
    } else {
      FilterAppend(p, xs[1..], ys);
      TailOfAppend(xs, ys);
      ConsAppend(xs[0], Filter(p, xs[1..]), Filter(p, ys));
    }
  }

  lemma {:induction false} FilterSelects<T>(p: T -> bool, xs: seq<T>)
    ensures forall i | 0 <= i < |Filter(p, xs)| :: p(Filter(p, xs)[i])
  {
    if xs != [] {
      FilterSelects(p, xs[1..]);
    }
  }

  /** Selected and rejected items are the list, split: nothing lost, nothing twice. */
  lemma {:induction false} FilterPartitions<T>(p: T -> bool, xs: seq<T>)
    ensures multiset(Filter(p, xs)) + multiset(Filter(Not(p), xs)) == multiset(xs)
  {
    if xs != [] {
      FilterPartitions(p, xs[1..]);
      assert xs == [xs[0]] + xs[1..];
      assert multiset(xs) == multiset{xs[0]} + multiset(xs[1..]);
      if p(xs[0]) {
        assert multiset(Filter(p, xs)) == multiset{xs[0]} + multiset(Filter(p, xs[1..]));
      } else {
        assert multiset(Filter(Not(p), xs)) == multiset{xs[0]} + multiset(Filter(Not(p), xs[1..]));
      }
    }
  }

  /** What a deletion leaves has nothing left to select. */
  lemma {:induction false} RejectedHasNoMatch<T>(p: T -> bool, xs: seq<T>)
    ensures Filter(p, Filter(Not(p), xs)) == []
  {
    if xs != [] {
      RejectedHasNoMatch(p, xs[1..]);
      if !p(xs[0]) {
        assert ([xs[0]] + Filter(Not(p), xs[1..]))[1..] == Filter(Not(p), xs[1..]);
      }
    }
  }

  lemma {:induction false} FilterRound<T>(p: T -> bool, xs: seq<T>, i: nat)
    requires i < |xs|
    ensures Filter(p, xs[..i + 1]) == Filter(p, xs[..i]) + if p(xs[i]) then [xs[i]] else []
    ensures |Filter(p, xs[..i + 1])| <= |Filter(p, xs)|
  {
    assert xs[..i + 1] == xs[..i] + [xs[i]];
    FilterAppend(p, xs[..i], [xs[i]]);
    assert xs == xs[..i + 1] + xs[i + 1..];
    FilterAppend(p, xs[..i + 1], xs[i + 1..]);
  }

  /** First pass: how many items satisfy `p`. */
  method CountWhere<T>(p: T -> bool, ar: array<T>) returns (n: nat)
    ensures n == |Filter(p, ar[..])|
  {
    n := 0;
    var i := 0;
    while i < ar.Length
      invariant 0 <= i <= ar.Length && n == |Filter(p, ar[..][..i])|
    {
      FilterRound(p, ar[..], i);
      if p(ar[i]) {
        n := n + 1;
      }
      i := i + 1;
    }
    assert ar[..][..i] == ar[..];
  }

  /** Second pass: the items that satisfy `p`, written through `copy` into a buffer of exactly
      the counted size. */
  method FillWhere<T(!new)>(p: T -> bool, copy: (T, T) -> T, ar: array<T>, dst: array<T>)
    requires dst != ar && dst.Length == |Filter(p, ar[..])|
    requires forall x, s | 0 <= x < dst.Length :: copy(dst[x], s) == s
    modifies dst
    ensures dst[..] == Filter(p, ar[..])
  {
    ghost var xs := ar[..];
    var i, j := 0, 0;
    while i < ar.Length
      invariant 0 <= i <= ar.Length && ar[..] == xs
      invariant 0 <= j == |Filter(p, xs[..i])| <= dst.Length
      invariant dst[..j] == Filter(p, xs[..i])
      invariant forall x | j <= x < dst.Length :: dst[x] == old(dst[x])
    {
      FilterRound(p, xs, i);
      if p(ar[i]) {
        dst[j] := copy(dst[j], ar[i]);
        j := j + 1;
      }
      i := i + 1;
    }
    assert xs[..i] == xs && dst[..j] == dst[..];
  }

  /** Index of the first item at `from` or later that satisfies `p`. */
  method FindMatching<T>(p: T -> bool, ar: array<T>, from: nat) returns (k: nat)
    requires from <= ar.Length
    ensures from <= k <= ar.Length
    ensures forall j | from <= j < k :: !p(ar[j])
    ensures k < ar.Length ==> p(ar[k])
  {
    k := from;
    while k < ar.Length
      invariant from <= k <= ar.Length
      invariant forall j | from <= j < k :: !p(ar[j])
    {
      if p(ar[k]) {
        return;
      }
      k := k + 1;
    }
  }

  lemma {:induction false} FilterSkips<T>(p: T -> bool, xs: seq<T>, from: nat, k: nat)
    requires from <= k <= |xs| && forall j | from <= j < k :: !p(xs[j])
    ensures Filter(p, xs[from..]) == Filter(p, xs[k..])
    decreases k - from
  {
    if from < k {
      assert xs[from..][1..] == xs[from + 1..];
      FilterSkips(p, xs, from + 1, k);
    }
  }

  /** Iterator over the matching items. `current` is the buffer length when the iterator is
      done, which the code represents by a null pointer. */
  class MatchIterator<T(!new)> {
    const matches: T -> bool
    const ar: array<T>
    var current: nat

    ghost predicate Valid()
      reads this, ar
    {
      current <= ar.Length && (current < ar.Length ==> matches(ar[current]))
    }

    /** The items still to come. */
    ghost function Remaining(): seq<T>
      requires Valid()
      reads this, ar
    {
      Filter(matches, ar[current..])
    }

    constructor (matches: T -> bool, ar: array<T>)
      ensures Valid() && this.matches == matches && this.ar == ar
      ensures Remaining() == Filter(matches, ar[..])
    {
      this.matches, this.ar, this.current := matches, ar, 0;
      new;
      var k := FindMatching(matches, ar, 0);
      FilterSkips(matches, ar[..], 0, k);
      assert ar[..][0..] == ar[..] && ar[..][k..] == ar[k..];
      current := k;
    }

    method IsDone() returns (done: bool)
      requires Valid()
      ensures done <==> Remaining() == []
    {
      done := current == ar.Length;
    }

    method Get() returns (x: T)
      requires Valid() && Remaining() != []
      ensures x == Remaining()[0]
    {
      x := ar[current];
    }

    method Next()
      requires Valid()
      modifies this
      ensures Valid() && Remaining() == if old(Remaining()) == [] then [] else old(Remaining())[1..]
    {
      if current == ar.Length {
        return;
      }
      assert ar[current..][1..] == ar[current + 1..];
      var k := FindMatching(matches, ar, current + 1);
      FilterSkips(matches, ar[..], current + 1, k);
      assert ar[..][current + 1..] == ar[current + 1..] && ar[..][k..] == ar[k..];
      current := k;
    }
  }
}
