/** The compressed peptide→protein table that `save_database` writes and
    `read_database` reads back: the peptides in dictionary order, a pointer
    array, and all protein ids concatenated. */
module Csr {
  import opened Outcomes
  import opened Seqs
  import opened PeptIndex

  /** `sequences`, `protein_indptr` and `protein_indices`. */
  datatype Csr = Csr(sequences: seq<string>, indptr: seq<int>, indices: seq<int>)

  /** `[pept_dict[i] for i in peps]`. */
  function Lists(d: Index): (r: seq<seq<int>>)
    requires forall k :: k in d.keys ==> k in d.vals
    ensures |r| == |d.keys| && forall i :: 0 <= i < |r| ==> r[i] == d.vals[d.keys[i]]
  {
    seq(|d.keys|, i requires 0 <= i < |d.keys| => d.vals[d.keys[i]])
  }

  /** 0 followed by `np.cumsum` of the list lengths. */
  function CumLengths(ls: seq<seq<int>>): (r: seq<int>)
    ensures |r| == |ls| + 1
  {
    if ls == [] then [0]
    else
      var c := CumLengths(ls[..|ls| - 1]);
      c + [c[|c| - 1] + |ls[|ls| - 1]|]
  }

  /** Each pointer is the number of ids before that list. */
  lemma {:induction false} CumLengthsFlatten(ls: seq<seq<int>>)
    ensures forall i :: 0 <= i <= |ls| ==> CumLengths(ls)[i] == |Flatten(ls[..i])|
  {
    if ls != [] {
      var init := ls[..|ls| - 1];
      CumLengthsFlatten(init);
      forall i | 0 <= i <= |ls| ensures CumLengths(ls)[i] == |Flatten(ls[..i])| {
        if i < |ls| {
          assert ls[..i] == init[..i];
        } else {
          assert ls[..i] == ls;
          assert init[..|init|] == init;
        }
      }
    }
  }

  /** The CSR part of save_database. With no peptides `np.concatenate` of an
      empty list raises ValueError. */
  function Encode(d: Index): Result<Csr>
    requires forall k :: k in d.keys ==> k in d.vals
  {
    if d.keys == [] then Err(ValueError)
    else
      var ls := Lists(d);
      Ok(Csr(d.keys, CumLengths(ls), Flatten(ls)))
  }

  /** The slice of the ids between two consecutive pointers is one key's list. */
  lemma CumLengthsSlice(ls: seq<seq<int>>, i: nat)
    requires i < |ls|
    ensures 0 <= CumLengths(ls)[i] <= CumLengths(ls)[i + 1] <= |Flatten(ls)|
    ensures Flatten(ls)[CumLengths(ls)[i]..CumLengths(ls)[i + 1]] == ls[i]
    ensures PySlice(Flatten(ls), CumLengths(ls)[i], CumLengths(ls)[i + 1]) == ls[i]
  {
    var pre, post := ls[..i], ls[i + 1..];
    CumLengthsFlatten(ls);
    assert ls[..i + 1] == pre + [ls[i]];
    FlattenSnoc(pre, ls[i]);
    var c := CumLengths(ls);
    assert c[i] == |Flatten(pre)| && c[i + 1] == |Flatten(pre)| + |ls[i]|;
    FlattenSplit(ls, i);
    SliceMiddle(Flatten(pre), ls[i], Flatten(post));
  }

  /** The middle of three joined lists, recovered by slicing. */
  lemma SliceMiddle(a: seq<int>, b: seq<int>, c: seq<int>)
    ensures (a + b + c)[|a|..|a| + |b|] == b
  {
  }

  /** Pointers never decrease. */
  lemma CumLengthsMonotone(ls: seq<seq<int>>)
    ensures forall i, j :: 0 <= i <= j <= |ls| ==> CumLengths(ls)[i] <= CumLengths(ls)[j]
    ensures CumLengths(ls)[0] == 0 && CumLengths(ls)[|ls|] == |Flatten(ls)|
  {
    CumLengthsFlatten(ls);
    forall i, j | 0 <= i <= j <= |ls| ensures CumLengths(ls)[i] <= CumLengths(ls)[j] {
      assert ls[..j] == ls[..i] + ls[i..j];
      FlattenAppend(ls[..i], ls[i..j]);
    }
    assert ls[..0] == [];
    assert ls[..|ls|] == ls;
  }

  /** The ids between pointers i and i + 1 are v. */
  predicate SliceIs(c: Csr, i: nat, v: seq<int>)
  {
    && i + 1 < |c.indptr|
    && 0 <= c.indptr[i] <= c.indptr[i + 1] <= |c.indices|
    && c.indices[c.indptr[i]..c.indptr[i + 1]] == v
  }

  /** save_database's table: ValueError exactly for an empty dictionary;
      otherwise the peptides in key order, indptr of length |keys| + 1 from 0 up
      to the number of ids without decreasing, and each key's ids between its two
      pointers. */
  lemma EncodeShape(d: Index)
    requires ValidIndex(d)
    ensures Encode(d).Err? <==> d.keys == []
    ensures Encode(d).Err? ==> Encode(d).error == ValueError
    ensures Encode(d).Ok? ==> var c := Encode(d).value;
      && c.sequences == d.keys
      && |c.indptr| == |d.keys| + 1
      && c.indptr[0] == 0
      && c.indptr[|d.keys|] == |c.indices|
      && (forall i, j :: 0 <= i <= j < |c.indptr| ==> c.indptr[i] <= c.indptr[j])
      && (forall i :: 0 <= i < |d.keys| ==> SliceIs(c, i, d.vals[d.keys[i]]))
  {
    if d.keys != [] {
      var ls := Lists(d);
      var c := Encode(d).value;
      CumLengthsMonotone(ls);
      forall i | 0 <= i < |d.keys| ensures SliceIs(c, i, d.vals[d.keys[i]]) {
        CumLengthsSlice(ls, i);
      }
    }
  }

  /** How many triples `zip(peps, indptr[:-1], indptr[1:])` yields. */
  function ZipLength(c: Csr): (n: nat)
    ensures n <= |c.sequences| && (n == 0 || n < |c.indptr|)
  {
    var m := if |c.indptr| == 0 then 0 else |c.indptr| - 1;
    if |c.sequences| < m then |c.sequences| else m
  }

  /** The dictionary built from the first n triples: the peptide maps to the
      slice of ids between its pointers; a repeated peptide keeps its first
      position and takes the later slice. */
  function DecodeUpTo(c: Csr, n: nat): Index
    requires n <= |c.sequences| && n < |c.indptr|
  {
    if n == 0 then Index([], map[])
    else
      var m := DecodeUpTo(c, n - 1);
      var pep := c.sequences[n - 1];
      var v := PySlice(c.indices, c.indptr[n - 1], c.indptr[n]);
      if pep in m.vals then Index(m.keys, m.vals[pep := v]) else Index(m.keys + [pep], m.vals[pep := v])
  }

  /** The pept_dict comprehension of read_database. */
  function Decode(c: Csr): Index
  {
    if ZipLength(c) == 0 then Index([], map[]) else DecodeUpTo(c, ZipLength(c))
  }

  /** Whatever the arrays hold, the decoded dictionary is well formed. */
  lemma {:induction false} DecodeUpToValid(c: Csr, n: nat)
    requires n <= |c.sequences| && n < |c.indptr|
    ensures ValidIndex(DecodeUpTo(c, n))
    ensures forall k :: k in DecodeUpTo(c, n).vals <==> k in c.sequences[..n]
  {
    if n > 0 {
      DecodeUpToValid(c, n - 1);
      assert c.sequences[..n] == c.sequences[..n - 1] + [c.sequences[n - 1]];
    }
  }

  /** m holds the first n keys of d, in order, with d's lists. */
  ghost predicate PrefixOf(m: Index, d: Index, n: nat)
    requires n <= |d.keys| && ValidIndex(d)
  {
    && m.keys == d.keys[..n]
    && (forall k :: k in m.vals <==> k in d.keys[..n])
    && (forall k :: k in m.vals ==> m.vals[k] == d.vals[k])
  }

  /** Adding key n - 1 of d with its list to a dictionary of the first n - 1
      keys gives one of the first n keys. */
  lemma PrefixStep(prev: Index, d: Index, n: nat, v: seq<int>)
    requires ValidIndex(d) && 0 < n <= |d.keys| && PrefixOf(prev, d, n - 1)
    requires v == d.vals[d.keys[n - 1]]
    ensures d.keys[n - 1] !in prev.vals
    ensures PrefixOf(Index(prev.keys + [d.keys[n - 1]], prev.vals[d.keys[n - 1] := v]), d, n)
  {
    PrefixNoDup(d.keys, n);
  }

  /** Triple i of an encoded dictionary is key i and its list. */
  lemma EncodedTriple(d: Index, i: nat)
    requires ValidIndex(d) && i < |d.keys|
    ensures Encode(d).Ok? && var c := Encode(d).value;
      && i + 1 < |c.indptr| && i < |c.sequences|
      && c.sequences[i] == d.keys[i]
      && PySlice(c.indices, c.indptr[i], c.indptr[i + 1]) == d.vals[d.keys[i]]
  {
    CumLengthsSlice(Lists(d), i);
  }

  /** Decoding one more triple of an encoded dictionary adds its next key. */
  lemma DecodeStep(d: Index, c: Csr, n: nat)
    requires ValidIndex(d) && 0 < n <= |d.keys| && Encode(d) == Ok(c)
    requires n < |c.indptr| && n <= |c.sequences|
    requires PrefixOf(DecodeUpTo(c, n - 1), d, n - 1)
    ensures PrefixOf(DecodeUpTo(c, n), d, n)
  {
    EncodedTriple(d, n - 1);
    var prev := DecodeUpTo(c, n - 1);
    var v := PySlice(c.indices, c.indptr[n - 1], c.indptr[n]);
    PrefixStep(prev, d, n, v);
    assert DecodeUpTo(c, n) == Index(prev.keys + [d.keys[n - 1]], prev.vals[d.keys[n - 1] := v]);
  }

  /** On an encoded dictionary, the first n triples decode to its first n keys
      with their lists. */
  lemma {:induction false} DecodeUpToEncoded(d: Index, n: nat)
    requires ValidIndex(d) && d.keys != [] && n <= |d.keys|
    ensures Encode(d).Ok? && n < |Encode(d).value.indptr| && n <= |Encode(d).value.sequences|
    ensures PrefixOf(DecodeUpTo(Encode(d).value, n), d, n)
  {
    assert |Encode(d).value.indptr| == |d.keys| + 1;
    if n > 0 {
      DecodeUpToEncoded(d, n - 1);
      DecodeStep(d, Encode(d).value, n);
    }
  }

  /** read_database inverts save_database: decoding the table of a non-empty
      dictionary gives back the dictionary, keys in the same order. */
  lemma DecodeEncode(d: Index)
    requires ValidIndex(d) && d.keys != []
    ensures Encode(d).Ok? && Decode(Encode(d).value) == d
  {
    var c := Encode(d).value;
    assert ZipLength(c) == |d.keys|;
    DecodeUpToEncoded(d, |d.keys|);
    var m := DecodeUpTo(c, |d.keys|);
    assert d.keys[..|d.keys|] == d.keys;
    assert PrefixOf(m, d, |d.keys|);
    assert m.vals == d.vals;
  }
}
