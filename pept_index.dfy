/** The peptide dictionary: each peptide sequence maps to the list of ids of the
    proteins it was generated from, with keys in insertion order.
    `add_to_pept_dict` and `merge_pept_dicts` update dictionaries in place. */
module PeptIndex {
  import opened Outcomes
  import opened Seqs

  /** A peptide dictionary as a value: its keys in insertion order and each key's
      list of protein ids. */
  datatype Index = Index(keys: seq<string>, vals: map<string, seq<int>>)

  /** A dictionary's keys are its mapped peptides, each once. */
  predicate ValidIndex(d: Index)
  {
    && NoDup(d.keys)
    && (forall k :: k in d.vals ==> k in d.keys)
    && (forall k :: k in d.keys ==> k in d.vals)
  }

  /** `d.get(k, [])`. */
  function Get(d: Index, k: string): seq<int>
  {
    if k in d.vals then d.vals[k] else []
  }

  /** The peptides of ps that d does not map, in the order of ps. */
  function Absent(vals: map<string, seq<int>>, ps: seq<string>): seq<string>
  {
    if ps == [] then []
    else Absent(vals, ps[..|ps| - 1]) + (if ps[|ps| - 1] in vals then [] else [ps[|ps| - 1]])
  }

  lemma {:induction false} AbsentElems(vals: map<string, seq<int>>, ps: seq<string>)
    ensures forall p :: p in Absent(vals, ps) <==> p in ps && p !in vals
  {
    if ps != [] {
      AbsentElems(vals, ps[..|ps| - 1]);
      assert ps == ps[..|ps| - 1] + [ps[|ps| - 1]];
    }
  }

  lemma {:induction false} CountAbsent<T>(s: seq<T>, x: T)
    ensures Count(s, x) == 0 <==> x !in s
  {
    if s != [] {
      CountAbsent(s[..|s| - 1], x);
      assert s == s[..|s| - 1] + [s[|s| - 1]];
    }
  }

  /** One iteration of add_to_pept_dict: append id i to p's list, or create the
      list [i] for a new p. */
  function AddOne(d: Index, p: string, i: int): Index
  {
    if p in d.vals then Index(d.keys, d.vals[p := d.vals[p] + [i]])
    else Index(d.keys + [p], d.vals[p := [i]])
  }

  /** add_to_pept_dict: the dictionary after all of ps, and the peptides that
      were new, in the order they were added. */
  function AddAll(d: Index, ps: seq<string>, i: int): (Index, seq<string>)
  {
    if ps == [] then (d, [])
    else
      var (e, added) := AddAll(d, ps[..|ps| - 1], i);
      var p := ps[|ps| - 1];
      (AddOne(e, p, i), if p in e.vals then added else added + [p])
  }

  /** add_to_pept_dict keeps the dictionary well formed, maps exactly the old
      keys and ps, and appends the new peptides to the keys in the order returned. */
  lemma {:induction false} AddAllKeys(d: Index, ps: seq<string>, i: int)
    requires ValidIndex(d)
    ensures ValidIndex(AddAll(d, ps, i).0)
    ensures AddAll(d, ps, i).0.keys == d.keys + AddAll(d, ps, i).1
    ensures forall k :: k in AddAll(d, ps, i).0.vals <==> k in d.vals || k in ps
  {
    if ps != [] {
      var init, p := ps[..|ps| - 1], ps[|ps| - 1];
      AddAllKeys(d, init, i);
      assert ps == init + [p];
      var e := AddAll(d, init, i).0;
      if p !in e.vals {
        assert p !in e.keys;
      }
    }
  }

  /** add_to_pept_dict returns the peptides of the list that were not yet keys,
      each once, in first-occurrence order. */
  lemma {:induction false} AddAllAdded(d: Index, ps: seq<string>, i: int)
    requires ValidIndex(d)
    ensures AddAll(d, ps, i).1 == Unique(Absent(d.vals, ps))
  {
    if ps != [] {
      var init, p := ps[..|ps| - 1], ps[|ps| - 1];
      AddAllAdded(d, init, i);
      AddAllKeys(d, init, i);
      AbsentElems(d.vals, init);
      var ab := Absent(d.vals, init);
      var e := AddAll(d, init, i).0;
      assert Absent(d.vals, ps) == ab + (if p in d.vals then [] else [p]);
      if p in d.vals {
        assert ab + [] == ab;
        assert p in e.vals;
      } else {
        var ab' := ab + [p];
        assert ab'[..|ab'| - 1] == ab && ab'[|ab'| - 1] == p;
        assert Unique(ab') == if p in Unique(ab) then Unique(ab) else Unique(ab) + [p];
        assert p in Unique(ab) <==> p in e.vals;
      }
    }
  }

  /** After add_to_pept_dict each list is its old list (or none) followed by one
      i per occurrence of the peptide in ps. */
  lemma {:induction false} AddAllVals(d: Index, ps: seq<string>, i: int)
    ensures forall k :: k in AddAll(d, ps, i).0.vals ==> AddAll(d, ps, i).0.vals[k] == Get(d, k) + Repeat(i, Count(ps, k))
    ensures forall k :: k in AddAll(d, ps, i).0.vals <==> k in d.vals || k in ps
  {
    if ps == [] {
      forall k | k in d.vals ensures d.vals[k] == Get(d, k) + Repeat(i, 0) {
        assert Get(d, k) + [] == Get(d, k);
      }
    } else {
      var init, p := ps[..|ps| - 1], ps[|ps| - 1];
      AddAllVals(d, init, i);
      assert ps == init + [p];
      var e := AddAll(d, init, i).0;
      var e' := AddAll(d, ps, i).0;
      forall k | k in e'.vals ensures e'.vals[k] == Get(d, k) + Repeat(i, Count(ps, k)) {
        assert Repeat(i, Count(init, k) + 1) == Repeat(i, Count(init, k)) + [i];
        if k == p && p !in e.vals {
          CountAbsent(init, p);
          assert Get(d, k) == [];
        }
      }
    }
  }

  /** The dictionary after the first n keys of b are merged into a: a key already
      present gets b's list appended to its own, a new key is added with b's list. */
  function MergeKeys(a: Index, b: Index, n: nat): Index
    requires n <= |b.keys| && ValidIndex(b)
  {
    if n == 0 then a
    else
      var m := MergeKeys(a, b, n - 1);
      var k := b.keys[n - 1];
      if k in m.vals then Index(m.keys, m.vals[k := m.vals[k] + b.vals[k]])
      else Index(m.keys + [k], m.vals[k := b.vals[k]])
  }

  /** One outer iteration of merge_pept_dicts: b merged into a. */
  function MergeTwo(a: Index, b: Index): Index
    requires ValidIndex(b)
  {
    MergeKeys(a, b, |b.keys|)
  }

  lemma PrefixNoDup(s: seq<string>, n: nat)
    requires NoDup(s) && 0 < n <= |s|
    ensures s[..n] == s[..n - 1] + [s[n - 1]]
    ensures s[n - 1] !in s[..n - 1]
  {
    var pre := s[..n - 1];
    forall j | 0 <= j < n - 1 ensures pre[j] != s[n - 1] { assert s[j] != s[n - 1]; }
  }

  /** Merging a prefix of b's keys keeps a well-formed dictionary whose keys
      are a's followed by the new ones. */
  lemma {:induction false} MergeKeysKeys(a: Index, b: Index, n: nat)
    requires n <= |b.keys| && ValidIndex(a) && ValidIndex(b)
    ensures var m := MergeKeys(a, b, n);
      && ValidIndex(m)
      && m.keys == a.keys + Absent(a.vals, b.keys[..n])
      && (forall k :: k in m.vals <==> k in a.vals || k in b.keys[..n])
  {
    if n > 0 {
      MergeKeysKeys(a, b, n - 1);
      PrefixNoDup(b.keys, n);
      var m := MergeKeys(a, b, n - 1);
      var k := b.keys[n - 1];
      if k !in m.vals {
        assert k !in m.keys;
      }
    }
  }

  /** Merging a prefix of b's keys appends b's list to each of those keys. */
  lemma {:induction false} MergeKeysVals(a: Index, b: Index, n: nat)
    requires n <= |b.keys| && ValidIndex(a) && ValidIndex(b)
    ensures var m := MergeKeys(a, b, n);
      forall k :: k in m.vals ==> m.vals[k] == Get(a, k) + (if k in b.keys[..n] then b.vals[k] else [])
  {
    if n == 0 {
      forall k | k in a.vals ensures a.vals[k] == Get(a, k) + [] { }
    } else {
      MergeKeysVals(a, b, n - 1);
      MergeKeysKeys(a, b, n - 1);
      PrefixNoDup(b.keys, n);
      MergeKeysValsStep(a, b, n, MergeKeys(a, b, n - 1), MergeKeys(a, b, n));
    }
  }

  /** One key of b merged: only that key's list changes, gaining b's list. */
  lemma MergeKeysValsStep(a: Index, b: Index, n: nat, m: Index, m': Index)
    requires 0 < n <= |b.keys| && ValidIndex(b)
    requires m == MergeKeys(a, b, n - 1) && m' == MergeKeys(a, b, n)
    requires forall k :: k in m.vals ==> m.vals[k] == Get(a, k) + (if k in b.keys[..n - 1] then b.vals[k] else [])
    requires forall k :: k in m.vals <==> k in a.vals || k in b.keys[..n - 1]
    requires b.keys[..n] == b.keys[..n - 1] + [b.keys[n - 1]] && b.keys[n - 1] !in b.keys[..n - 1]
    ensures forall k :: k in m'.vals ==> m'.vals[k] == Get(a, k) + (if k in b.keys[..n] then b.vals[k] else [])
  {
    var key := b.keys[n - 1];
    forall k | k in m'.vals
      ensures m'.vals[k] == Get(a, k) + (if k in b.keys[..n] then b.vals[k] else [])
    {
      if k == key {
        assert k in b.keys[..n];
        if k in m.vals {
          assert m'.vals[k] == m.vals[k] + b.vals[k];
          assert m.vals[k] == Get(a, k) + [];
        } else {
          assert m'.vals[k] == b.vals[k];
          assert k !in a.vals;
        }
      } else {
        assert k in b.keys[..n] <==> k in b.keys[..n - 1];
        assert m'.vals[k] == m.vals[k];
      }
    }
  }

  /** Merging b into a keeps the dictionary well formed; a's keys come first,
      then b's keys that a lacked, in b's order; each list is a's list followed
      by b's. */
  lemma MergeTwoSpec(a: Index, b: Index)
    requires ValidIndex(a) && ValidIndex(b)
    ensures var m := MergeTwo(a, b);
      && ValidIndex(m)
      && m.keys == a.keys + Absent(a.vals, b.keys)
      && (forall k :: k in m.vals <==> k in a.vals || k in b.vals)
      && (forall k :: k in m.vals ==> m.vals[k] == Get(a, k) + Get(b, k))
  {
    MergeKeysKeys(a, b, |b.keys|);
    MergeKeysVals(a, b, |b.keys|);
    assert b.keys[..|b.keys|] == b.keys;
  }

  predicate AllValid(ds: seq<Index>)
  {
    forall j :: 0 <= j < |ds| ==> ValidIndex(ds[j])
  }

  /** The loop of merge_pept_dicts over a non-empty list: everything merged into
      the first dictionary, in list order. */
  function Merged(ds: seq<Index>): Index
    requires ds != [] && AllValid(ds)
  {
    if |ds| == 1 then ds[0] else MergeTwo(Merged(ds[..|ds| - 1]), ds[|ds| - 1])
  }

  /** merge_pept_dicts: ValueError on an empty list. */
  function MergePeptDicts(ds: seq<Index>): Result<Index>
    requires AllValid(ds)
  {
    if ds == [] then Err(ValueError) else Ok(Merged(ds))
  }

  /** The ids of key k over the dictionaries, in list order. */
  function Collect(ds: seq<Index>, k: string): seq<int>
  {
    if ds == [] then [] else Collect(ds[..|ds| - 1], k) + Get(ds[|ds| - 1], k)
  }

  /** Dropping the last dictionary keeps the list well formed and its head. */
  lemma InitValid(ds: seq<Index>)
    requires |ds| > 1 && AllValid(ds)
    ensures AllValid(ds[..|ds| - 1]) && ds[..|ds| - 1][0] == ds[0]
  {
    var init := ds[..|ds| - 1];
    forall j | 0 <= j < |init| ensures ValidIndex(init[j]) { assert init[j] == ds[j]; }
  }

  /** The merged dictionary is well formed, starts with the first dictionary's
      keys in their order, and maps exactly the keys of the input dictionaries. */
  lemma {:induction false} MergedKeys(ds: seq<Index>)
    requires ds != [] && AllValid(ds)
    ensures var m := Merged(ds);
      && ValidIndex(m)
      && |m.keys| >= |ds[0].keys| && m.keys[..|ds[0].keys|] == ds[0].keys
      && (forall k :: k in m.vals <==> exists j :: 0 <= j < |ds| && k in ds[j].vals)
  {
    if |ds| > 1 {
      var init := ds[..|ds| - 1];
      InitValid(ds);
      MergedKeys(init);
      var a, b := Merged(init), ds[|ds| - 1];
      MergeTwoSpec(a, b);
      var m := Merged(ds);
      assert m.keys[..|ds[0].keys|] == a.keys[..|ds[0].keys|];
      KeyUnion(ds, init, a.vals, m.vals);
    }
  }

  /** Keys of the first dictionaries together with the last one's are the keys
      of all of them. */
  lemma KeyUnion(ds: seq<Index>, init: seq<Index>, a: map<string, seq<int>>, m: map<string, seq<int>>)
    requires |ds| > 1 && init == ds[..|ds| - 1]
    requires forall k :: k in a <==> exists j :: 0 <= j < |init| && k in init[j].vals
    requires forall k :: k in m <==> k in a || k in ds[|ds| - 1].vals
    ensures forall k :: k in m <==> exists j :: 0 <= j < |ds| && k in ds[j].vals
  {
    forall k ensures k in m <==> exists j :: 0 <= j < |ds| && k in ds[j].vals {
      if k in a {
        var j :| 0 <= j < |init| && k in init[j].vals;
        assert ds[j] == init[j];
      }
      if exists j :: 0 <= j < |ds| && k in ds[j].vals {
        var j :| 0 <= j < |ds| && k in ds[j].vals;
        if j < |ds| - 1 { assert init[j] == ds[j]; }
      }
    }
  }

  /** Each key of the merged dictionary maps to its lists concatenated in input
      order. */
  lemma {:induction false} MergedVals(ds: seq<Index>)
    requires ds != [] && AllValid(ds)
    ensures forall k :: k in Merged(ds).vals ==> Merged(ds).vals[k] == Collect(ds, k)
  {
    if |ds| == 1 {
      forall k | k in ds[0].vals ensures ds[0].vals[k] == Collect(ds, k) {
        assert ds[..0] == [];
      }
    } else {
      var init := ds[..|ds| - 1];
      InitValid(ds);
      MergedVals(init);
      MergedKeys(init);
      var a, b := Merged(init), ds[|ds| - 1];
      MergeTwoSpec(a, b);
      forall k | k in Merged(ds).vals ensures Merged(ds).vals[k] == Collect(ds, k) {
        if k !in a.vals {
          CollectAbsent(init, k);
        }
      }
    }
  }

  /** The merged dictionary maps exactly the keys of any input dictionary, each to
      the concatenation of its lists in input order, and starts with the first
      dictionary's keys in their order. */
  lemma MergedSpec(ds: seq<Index>)
    requires ds != [] && AllValid(ds)
    ensures var m := Merged(ds);
      && ValidIndex(m)
      && |m.keys| >= |ds[0].keys| && m.keys[..|ds[0].keys|] == ds[0].keys
      && (forall k :: k in m.vals <==> exists j :: 0 <= j < |ds| && k in ds[j].vals)
      && (forall k :: k in m.vals ==> m.vals[k] == Collect(ds, k))
  {
    MergedKeys(ds);
    MergedVals(ds);
  }

  lemma {:induction false} CollectAbsent(ds: seq<Index>, k: string)
    requires forall j :: 0 <= j < |ds| ==> k !in ds[j].vals
    ensures Collect(ds, k) == []
  {
    if ds != [] {
      var init := ds[..|ds| - 1];
      assert forall j :: 0 <= j < |init| ==> init[j] == ds[j];
      CollectAbsent(init, k);
    }
  }

  /** An id is collected for k exactly when one of the dictionaries lists it
      under k. */
  lemma {:induction false} CollectMember(ds: seq<Index>, k: string)
    ensures forall id :: id in Collect(ds, k) <==> exists j :: 0 <= j < |ds| && id in Get(ds[j], k)
  {
    if ds != [] {
      var init := ds[..|ds| - 1];
      CollectMember(init, k);
      assert forall j :: 0 <= j < |init| ==> init[j] == ds[j];
    }
  }

  /** Some dictionary lists id under k. */
  predicate ListedIn(ds: seq<Index>, k: string, id: int)
  {
    exists j :: 0 <= j < |ds| && id in Get(ds[j], k)
  }

  /** The merged dictionary lists id under k exactly when one of the
      dictionaries does. */
  lemma MergedMember(ds: seq<Index>)
    requires ds != [] && AllValid(ds)
    ensures forall k, id :: (k in Merged(ds).vals && id in Merged(ds).vals[k]) <==> ListedIn(ds, k, id)
  {
    MergedSpec(ds);
    var m := Merged(ds);
    forall k, id ensures (k in m.vals && id in m.vals[k]) <==> ListedIn(ds, k, id) {
      CollectMember(ds, k);
      if ListedIn(ds, k, id) {
        var j :| 0 <= j < |ds| && id in Get(ds[j], k);
        assert k in ds[j].vals;
        assert k in m.vals;
        assert id in Collect(ds, k);
      }
    }
  }

  /** A peptide dictionary the source updates in place. */
  class PeptDict {
    var keys: seq<string>
    var vals: map<string, seq<int>>

    function Model(): Index
      reads this
    {
      Index(keys, vals)
    }

    predicate Valid()
      reads this
    {
      ValidIndex(Model())
    }

    /** `{}`. */
    constructor ()
      ensures Model() == Index([], map[])
    {
      keys := [];
      vals := map[];
    }

    /** add_to_pept_dict(self, ps, i): returns the peptides that were new. */
    method AddPeptides(ps: seq<string>, i: int) returns (added: seq<string>)
      modifies this
      ensures Model() == AddAll(old(Model()), ps, i).0
      ensures added == AddAll(old(Model()), ps, i).1
    {
      added := [];
      for j := 0 to |ps|
        invariant (Model(), added) == AddAll(old(Model()), ps[..j], i)
      {
        assert ps[..j + 1][..j] == ps[..j];
        var p := ps[j];
        if p in vals {
          vals := vals[p := vals[p] + [i]];
        } else {
          keys := keys + [p];
          vals := vals[p := [i]];
          added := added + [p];
        }
      }
      assert ps[..|ps|] == ps;
    }

    /** `new_pept_dict[key].append(element)` for each element of v. */
    method AppendIds(key: string, v: seq<int>)
      requires key in vals
      modifies this
      ensures keys == old(keys)
      ensures vals == old(vals)[key := old(vals)[key] + v]
    {
      assert old(vals)[key] + v[..0] == old(vals)[key];
      for e := 0 to |v|
        invariant keys == old(keys)
        invariant vals == old(vals)[key := old(vals)[key] + v[..e]]
      {
        assert old(vals)[key] + v[..e + 1] == old(vals)[key] + v[..e] + [v[e]];
        vals := vals[key := vals[key] + [v[e]]];
      }
      assert v[..|v|] == v;
    }

    /** One outer iteration of merge_pept_dicts: every key of other merged into
        this dictionary. */
    method MergeFrom(other: PeptDict)
      requires other != this && other.Valid()
      modifies this
      ensures Model() == MergeTwo(old(Model()), other.Model())
    {
      for t := 0 to |other.keys|
        invariant Model() == MergeKeys(old(Model()), other.Model(), t)
      {
        var key := other.keys[t];
        if key in vals {
          AppendIds(key, other.vals[key]);
        } else {
          keys := keys + [key];
          vals := vals[key := other.vals[key]];
        }
      }
    }
  }

  /** The values of a list of dictionaries. */
  function Models(ds: seq<PeptDict>): (r: seq<Index>)
    reads set j | 0 <= j < |ds| :: ds[j]
    ensures |r| == |ds| && forall j :: 0 <= j < |ds| ==> r[j] == ds[j].Model()
  {
    if ds == [] then [] else Models(ds[..|ds| - 1]) + [ds[|ds| - 1].Model()]
  }

  /** merge_pept_dicts: merges every later dictionary into the first one, which
      it returns. The dictionaries must be distinct objects: the same dictionary
      twice makes the source append to a list while iterating over it. */
  method MergePeptDictsInPlace(ds: seq<PeptDict>) returns (r: Result<PeptDict>)
    requires forall j :: 0 <= j < |ds| ==> ds[j].Valid()
    requires forall j, k :: 0 <= j < k < |ds| ==> ds[j] != ds[k]
    modifies if ds == [] then {} else {ds[0]}
    ensures ds == [] ==> r == Err(ValueError)
    ensures ds != [] ==> AllValid(old(Models(ds))) && r == Ok(ds[0]) && ds[0].Model() == Merged(old(Models(ds)))
  {
    if |ds| == 0 {
      return Err(ValueError);
    }
    ghost var ms := Models(ds);
    assert AllValid(ms);
    var merged := ds[0];
    for j := 1 to |ds|
      invariant forall k :: 1 <= k < |ds| ==> ds[k].Model() == ms[k]
      invariant AllValid(ms[..j]) && merged.Model() == Merged(ms[..j])
      invariant merged.Valid()
    {
      assert ms[..j + 1][..j] == ms[..j];
      merged.MergeFrom(ds[j]);
      MergeTwoSpec(Merged(ms[..j]), ms[j]);
    }
    assert ms[..|ds|] == ms;
    return Ok(merged);
  }
}
