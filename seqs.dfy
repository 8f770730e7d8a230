/** Sequence helpers shared by the model: Python slicing, joining, counting. */
module Seqs {

  /** Concatenation of a list of lists (`''.join`, `chain.from_iterable`, repeated `extend`). */
  function Flatten<T>(parts: seq<seq<T>>): seq<T>
  {
    if parts == [] then [] else Flatten(parts[..|parts| - 1]) + parts[|parts| - 1]
  }

  lemma {:induction false} FlattenAppend<T>(a: seq<seq<T>>, b: seq<seq<T>>)
    ensures Flatten(a + b) == Flatten(a) + Flatten(b)
  {
    if b == [] {
      assert a + b == a;
    } else {
      assert (a + b)[..|a + b| - 1] == a + b[..|b| - 1];
      FlattenAppend(a, b[..|b| - 1]);
    }
  }

  /** One more part. */
  lemma FlattenSnoc<T>(parts: seq<seq<T>>, x: seq<T>)
    ensures Flatten(parts + [x]) == Flatten(parts) + x
  {
    var q := parts + [x];
    assert q[..|q| - 1] == parts;
  }

  lemma FlattenOne<T>(x: seq<T>)
    ensures Flatten([x]) == x
  {
    assert [x][..0] == [];
  }

  lemma FlattenCons<T>(x: seq<T>, rest: seq<seq<T>>)
    ensures Flatten([x] + rest) == x + Flatten(rest)
  {
    FlattenAppend([x], rest);
    FlattenOne(x);
  }

  /** A list is what comes before position i, the element there, and what
      follows. */
  lemma SplitAt<T>(s: seq<T>, i: nat)
    requires i < |s|
    ensures s == s[..i] + ([s[i]] + s[i + 1..])
  {
    assert s[i..] == [s[i]] + s[i + 1..];
    assert s == s[..i] + s[i..];
  }

  /** The join around one part. */
  lemma FlattenSplit<T>(parts: seq<seq<T>>, i: nat)
    requires i < |parts|
    ensures Flatten(parts) == Flatten(parts[..i]) + parts[i] + Flatten(parts[i + 1..])
  {
    var a, x, b := parts[..i], parts[i], parts[i + 1..];
    calc {
      Flatten(parts);
      { SplitAt(parts, i); }
      Flatten(a + ([x] + b));
      { FlattenAppend(a, [x] + b); }
      Flatten(a) + Flatten([x] + b);
      { FlattenCons(x, b); }
      Flatten(a) + (x + Flatten(b));
    }
  }

  /** An element of the join is an element of one of the parts. */
  lemma {:induction false} FlattenMember<T>(parts: seq<seq<T>>)
    ensures forall x :: x in Flatten(parts) <==> exists j :: 0 <= j < |parts| && x in parts[j]
  {
    if parts != [] {
      var init := parts[..|parts| - 1];
      FlattenMember(init);
      assert forall j :: 0 <= j < |init| ==> init[j] == parts[j];
    }
  }

  /** The elements of the join depend only on the multiset of the parts, not on
      their order. */
  lemma {:induction false} FlattenMultiset<T>(a: seq<seq<T>>, b: seq<seq<T>>)
    requires multiset(a) == multiset(b)
    ensures multiset(Flatten(a)) == multiset(Flatten(b))
    decreases |a|
  {
    if a == [] {
      assert |b| == |multiset(b)| == 0;
    } else {
      var x, a' := a[|a| - 1], a[..|a| - 1];
      assert a == a' + [x];
      assert x in multiset(b);
      var p :| 0 <= p < |b| && b[p] == x;
      var b' := b[..p] + b[p + 1..];
      MultisetRemove(a, |a| - 1);
      assert a[..|a| - 1] + a[|a|..] == a';
      MultisetRemove(b, p);
      FlattenMultiset(a', b');
      FlattenSplit(b, p);
      FlattenAppend(b[..p], b[p + 1..]);
    }
  }

  /** Position m of the join is position i of part j. */
  lemma {:induction false} FlattenIndex<T>(parts: seq<seq<T>>, m: nat) returns (j: nat, i: nat)
    requires m < |Flatten(parts)|
    ensures j < |parts| && i < |parts[j]| && parts[j][i] == Flatten(parts)[m]
  {
    var init := parts[..|parts| - 1];
    if m < |Flatten(init)| {
      j, i := FlattenIndex(init, m);
      assert init[j] == parts[j];
    } else {
      j, i := |parts| - 1, m - |Flatten(init)|;
    }
  }

  /** Position i of part j is a position of the join. */
  lemma FlattenPosition<T>(parts: seq<seq<T>>, j: nat, i: nat) returns (m: nat)
    requires j < |parts| && i < |parts[j]|
    ensures m < |Flatten(parts)| && Flatten(parts)[m] == parts[j][i]
  {
    FlattenSplit(parts, j);
    m := |Flatten(parts[..j])| + i;
  }

  /** The elements of xs at the positions listed in order, in that order. */
  function Pick<T>(xs: seq<T>, order: seq<nat>): (r: seq<T>)
    requires forall j :: 0 <= j < |order| ==> order[j] < |xs|
    ensures |r| == |order|
  {
    seq(|order|, j requires 0 <= j < |order| => xs[order[j]])
  }

  /** Listing positions in another order lists the same elements. */
  lemma {:induction false} PickMultiset<T>(xs: seq<T>, o1: seq<nat>, o2: seq<nat>)
    requires forall j :: 0 <= j < |o1| ==> o1[j] < |xs|
    requires forall j :: 0 <= j < |o2| ==> o2[j] < |xs|
    requires multiset(o1) == multiset(o2)
    ensures multiset(Pick(xs, o1)) == multiset(Pick(xs, o2))
    decreases |o1|
  {
    if o1 == [] {
      assert |o2| == |multiset(o2)| == 0;
    } else {
      var x := o1[|o1| - 1];
      assert x in multiset(o2);
      var p :| 0 <= p < |o2| && o2[p] == x;
      var o1' := PickRemove(xs, o1, |o1| - 1);
      var o2' := PickRemove(xs, o2, p);
      PickMultiset(xs, o1', o2');
    }
  }

  /** Dropping position p of the order drops one occurrence of its element. */
  lemma PickRemove<T>(xs: seq<T>, o: seq<nat>, p: nat) returns (o': seq<nat>)
    requires forall j :: 0 <= j < |o| ==> o[j] < |xs|
    requires p < |o|
    ensures o' == o[..p] + o[p + 1..] && |o'| == |o| - 1
    ensures forall j :: 0 <= j < |o'| ==> o'[j] < |xs|
    ensures multiset(o') == multiset(o) - multiset{o[p]}
    ensures multiset(Pick(xs, o)) == multiset(Pick(xs, o')) + multiset{xs[o[p]]}
  {
    o' := o[..p] + o[p + 1..];
    MultisetRemove(o, p);
    assert Pick(xs, o) == Pick(xs, o)[..p] + [xs[o[p]]] + Pick(xs, o)[p + 1..];
    assert Pick(xs, o') == Pick(xs, o)[..p] + Pick(xs, o)[p + 1..];
  }

  /** Removing the element at p removes one occurrence of it. */
  lemma MultisetRemove<T>(s: seq<T>, p: nat)
    requires p < |s|
    ensures multiset(s[..p] + s[p + 1..]) == multiset(s) - multiset{s[p]}
  {
    assert s == s[..p] + [s[p]] + s[p + 1..];
  }

  /** Python's normalisation of one slice bound for a sequence of length n. */
  function PyIndex(n: nat, i: int): (k: nat)
    ensures k <= n
  {
    if i < 0 then (if n + i < 0 then 0 else n + i) else if i > n then n else i
  }

  /** Python's `s[i:j]` (negative bounds count from the end, bounds are clamped). */
  function PySlice<T>(s: seq<T>, i: int, j: int): seq<T>
  {
    var a, b := PyIndex(|s|, i), PyIndex(|s|, j);
    if a < b then s[a..b] else []
  }

  /** No element occurs twice. */
  predicate NoDup<T(==)>(s: seq<T>)
  {
    forall i, j :: 0 <= i < j < |s| ==> s[i] != s[j]
  }

  /** The elements of s, as a set. */
  function Elems<T>(s: seq<T>): set<T>
  {
    set x | x in s
  }

  /** Number of occurrences of x in s. */
  function Count<T(==)>(s: seq<T>, x: T): nat
  {
    if s == [] then 0 else Count(s[..|s| - 1], x) + (if s[|s| - 1] == x then 1 else 0)
  }

  /** Python's `s[::-1]`. */
  function Reverse<T>(s: seq<T>): (r: seq<T>)
    ensures |r| == |s|
    ensures forall i :: 0 <= i < |s| ==> r[i] == s[|s| - 1 - i]
  {
    if s == [] then [] else [s[|s| - 1]] + Reverse(s[..|s| - 1])
  }

  lemma ReverseReverse<T>(s: seq<T>)
    ensures Reverse(Reverse(s)) == s
  {
  }

  lemma ReverseMultiset<T>(s: seq<T>)
    ensures multiset(Reverse(s)) == multiset(s)
  {
    if s != [] {
      ReverseMultiset(s[..|s| - 1]);
      assert s == s[..|s| - 1] + [s[|s| - 1]];
    }
  }

  /** The list [x, x, ..., x] of length n. */
  function Repeat<T>(x: T, n: nat): (r: seq<T>)
    ensures |r| == n && forall i :: 0 <= i < n ==> r[i] == x
  {
    seq(n, _ => x)
  }

  /** `list(set(s))`: every element of s once. The order of a Python set is
      hash-dependent; this keeps first occurrences, and only order-free facts
      are relied on. */
  function Unique<T(==,!new)>(s: seq<T>): (r: seq<T>)
    ensures NoDup(r)
    ensures forall x :: x in r <==> x in s
  {
    if s == [] then []
    else
      var u := Unique(s[..|s| - 1]);
      assert forall x :: x in s <==> x in s[..|s| - 1] || x == s[|s| - 1] by {
        assert s == s[..|s| - 1] + [s[|s| - 1]];
      }
      if s[|s| - 1] in u then u else u + [s[|s| - 1]]
  }
}
