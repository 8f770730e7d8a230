/** Theoretical spectra: `get_spectrum`, `get_spectra` and `generate_spectra`.
    A spectrum is the precursor mass, the peptide, and its fragment masses in
    ascending order with the ion type of each. */
module Spectra {
  import opened Outcomes
  import opened Seqs
  import opened Parsing
  import opened Masses
  import opened Sorting

  datatype Spectrum = Spectrum(prec: real, sequence: string, masses: seq<real>, types: seq<int>)

  type Ion = (real, int)

  /** Masses and types side by side. */
  function Pairs(masses: seq<real>, types: seq<int>): (r: seq<Ion>)
    requires |masses| == |types|
    ensures |r| == |masses|
    ensures forall i :: 0 <= i < |r| ==> r[i].0 == masses[i] && r[i].1 == types[i]
  {
    seq(|masses|, i requires 0 <= i < |masses| => (masses[i], types[i]))
  }

  function MassesOf(p: seq<Ion>): (r: seq<real>)
    ensures |r| == |p|
  {
    seq(|p|, i requires 0 <= i < |p| => p[i].0)
  }

  function TypesOf(p: seq<Ion>): (r: seq<int>)
    ensures |r| == |p|
  {
    seq(|p|, i requires 0 <= i < |p| => p[i].1)
  }

  /** The order argsort puts the fragments in: by mass alone. */
  function MassLe(a: Ion, b: Ion): bool
  {
    a.0 <= b.0
  }

  lemma MassLeTotalPreorder()
    ensures TotalPreorder(MassLe)
  {
  }

  lemma TakeApartPairs(p: seq<Ion>)
    ensures Pairs(MassesOf(p), TypesOf(p)) == p
  {
  }

  lemma ProjectCons(x: Ion, s: seq<Ion>)
    ensures MassesOf([x] + s) == [x.0] + MassesOf(s)
    ensures TypesOf([x] + s) == [x.1] + TypesOf(s)
  {
  }

  lemma ProjectSplit(s: seq<Ion>)
    requires s != []
    ensures multiset(MassesOf(s)) == multiset{s[0].0} + multiset(MassesOf(s[1..]))
    ensures multiset(TypesOf(s)) == multiset{s[0].1} + multiset(TypesOf(s[1..]))
  {
    ProjectCons(s[0], s[1..]);
    assert [s[0]] + s[1..] == s;
  }

  /** Inserting a pair adds its mass. */
  lemma {:induction false} InsertMasses(x: Ion, s: seq<Ion>)
    ensures multiset(MassesOf(Insert(x, s, MassLe))) == multiset(MassesOf(s)) + multiset{x.0}
  {
    var r := Insert(x, s, MassLe);
    if s == [] {
      assert r == [x];
    } else if MassLe(x, s[0]) {
      assert r == [x] + s;
      ProjectCons(x, s);
    } else {
      var rest := Insert(x, s[1..], MassLe);
      InsertMasses(x, s[1..]);
      assert r == [s[0]] + rest;
      ProjectCons(s[0], rest);
      ProjectSplit(s);
    }
  }

  /** Inserting a pair adds its type. */
  lemma {:induction false} InsertTypes(x: Ion, s: seq<Ion>)
    ensures multiset(TypesOf(Insert(x, s, MassLe))) == multiset(TypesOf(s)) + multiset{x.1}
  {
    var r := Insert(x, s, MassLe);
    if s == [] {
      assert r == [x];
    } else if MassLe(x, s[0]) {
      assert r == [x] + s;
      ProjectCons(x, s);
    } else {
      var rest := Insert(x, s[1..], MassLe);
      InsertTypes(x, s[1..]);
      assert r == [s[0]] + rest;
      ProjectCons(s[0], rest);
      ProjectSplit(s);
    }
  }

  /** Sorting the pairs reorders their masses and their types alike. */
  lemma {:induction false} SortProjections(s: seq<Ion>)
    ensures multiset(MassesOf(SortBy(s, MassLe))) == multiset(MassesOf(s))
    ensures multiset(TypesOf(SortBy(s, MassLe))) == multiset(TypesOf(s))
  {
    if s != [] {
      SortProjections(s[1..]);
      InsertMasses(s[0], SortBy(s[1..], MassLe));
      InsertTypes(s[0], SortBy(s[1..], MassLe));
      ProjectSplit(s);
    }
  }

  /** get_spectrum: parse, fragment masses, the fragments sorted by mass, then
      the precursor mass. The peptide itself (with any tag) is kept. */
  function SpectrumOf(peptide: string, md: MassTable): Result<Spectrum>
  {
    var tokens := Tokenize(peptide);
    var frags :- FragMass(tokens, md);
    FragMassOutcome(tokens, md);
    var sorted := SortBy(Pairs(frags.masses, frags.types), MassLe);
    var prec :- PrecMass(tokens, md);
    Ok(Spectrum(prec, peptide, MassesOf(sorted), TypesOf(sorted)))
  }

  /** get_spectrum fails exactly when the peptide has no residue (ValueError) or
      a mass it needs is missing (KeyError). */
  lemma SpectrumOutcome(peptide: string, md: MassTable)
    ensures SpectrumOf(peptide, md) == Err(ValueError) <==> Tokenize(peptide) == []
    ensures SpectrumOf(peptide, md).Ok? <==>
      Tokenize(peptide) != [] && "Proton" in md && "H2O" in md && Known(md, Tokenize(peptide))
  {
    var tokens := Tokenize(peptide);
    FragMassOutcome(tokens, md);
    if tokens != [] && "Proton" in md && "H2O" in md && Known(md, tokens) {
      assert Known(md, tokens[..|tokens| - 1]);
      assert Known(md, tokens[1..]);
    }
    if FragMass(tokens, md).Ok? && |tokens| >= 2 {
      FragKeysAll(tokens, md);
    }
  }

  /** A spectrum of a peptide with n residues: the precursor is water plus every
      residue; 2(n - 1) fragment masses in ascending order, which with their types
      are the pairs get_fragmass produced, reordered; n - 1 of type 0 and n - 1 of
      type 1. */
  lemma SpectrumShape(peptide: string, md: MassTable)
    requires SpectrumOf(peptide, md).Ok?
    ensures var sp := SpectrumOf(peptide, md).value; var tokens := Tokenize(peptide);
      && Known(md, tokens) && "H2O" in md
      && sp.sequence == peptide
      && sp.prec == md["H2O"] + Sum(md, tokens)
      && |sp.masses| == |sp.types| == 2 * (|tokens| - 1)
      && (forall i, j :: 0 <= i < j < |sp.masses| ==> sp.masses[i] <= sp.masses[j])
      && FragMass(tokens, md).Ok?
      && multiset(Pairs(sp.masses, sp.types)) ==
         multiset(Pairs(FragMass(tokens, md).value.masses, FragMass(tokens, md).value.types))
      && multiset(sp.types) == multiset(Repeat(0, |tokens| - 1) + Repeat(1, |tokens| - 1))
  {
    var sp := SpectrumOf(peptide, md).value;
    var tokens := Tokenize(peptide);
    SpectrumOutcome(peptide, md);
    FragMassOutcome(tokens, md);
    var frags := FragMass(tokens, md).value;
    var p := Pairs(frags.masses, frags.types);
    var sorted := SortBy(p, MassLe);
    MassLeTotalPreorder();
    SortByCorrect(p, MassLe);
    SortProjections(p);
    TakeApartPairs(sorted);
    assert TypesOf(p) == frags.types;
    if |tokens| >= 2 {
      assert frags.types == Repeat(0, |tokens| - 1) + Repeat(1, |tokens| - 1);
    } else {
      assert frags.types == [];
    }
  }

  /** get_spectrum, with the sort done behind argsort's interface. */
  method GetSpectrum(peptide: string, md: MassTable) returns (r: Result<Spectrum>)
    ensures r == SpectrumOf(peptide, md)
  {
    var tokens := Parse(peptide);
    var frags := GetFragMass(tokens, md);
    if frags.Err? {
      return Err(frags.error);
    }
    FragMassOutcome(tokens, md);
    var sorted := SortBy(Pairs(frags.value.masses, frags.value.types), MassLe);
    var prec := GetPrecMass(tokens, md);
    if prec.Err? {
      return Err(prec.error);
    }
    return Ok(Spectrum(prec.value, peptide, MassesOf(sorted), TypesOf(sorted)));
  }

  /** get_spectra: the spectrum of each peptide, in order; the first failure
      raises. */
  function Spectra(peptides: seq<string>, md: MassTable): Result<seq<Spectrum>>
  {
    MapAll(p => SpectrumOf(p, md), peptides)
  }

  /** get_spectra succeeds exactly when every peptide has a spectrum, and then
      returns one spectrum per peptide, in order; otherwise it fails with the
      error of the first peptide that has none. */
  lemma SpectraShape(peptides: seq<string>, md: MassTable)
    ensures Spectra(peptides, md).Ok? <==> forall i :: 0 <= i < |peptides| ==> SpectrumOf(peptides[i], md).Ok?
    ensures Spectra(peptides, md).Ok? ==>
      && |Spectra(peptides, md).value| == |peptides|
      && forall i :: 0 <= i < |peptides| ==> SpectrumOf(peptides[i], md) == Ok(Spectra(peptides, md).value[i])
    ensures forall i ::
      (0 <= i < |peptides| && SpectrumOf(peptides[i], md).Err? &&
       (forall k :: 0 <= k < i ==> SpectrumOf(peptides[k], md).Ok?)) ==>
      Spectra(peptides, md) == Err(SpectrumOf(peptides[i], md).error)
  {
    MapAllShape(p => SpectrumOf(p, md), peptides);
    MapAllFirstError(p => SpectrumOf(p, md), peptides);
  }

  /** get_spectra: the loop appending one spectrum per peptide. */
  method GetSpectra(peptides: seq<string>, md: MassTable) returns (r: Result<seq<Spectrum>>)
    ensures r == Spectra(peptides, md)
  {
    ghost var f := p => SpectrumOf(p, md);
    var spectra := [];
    for i := 0 to |peptides|
      invariant MapAll(f, peptides[..i]) == Ok(spectra)
    {
      var sp := GetSpectrum(peptides[i], md);
      assert peptides[..i + 1][..i] == peptides[..i];
      if sp.Err? {
        MapAllErrSticks(f, peptides, i + 1);
        return Err(sp.error);
      }
      spectra := spectra + [sp.value];
    }
    assert peptides[..|peptides|] == peptides;
    return Ok(spectra);
  }

  /** generate_spectra: ValueError on an empty list, otherwise get_spectra. */
  function GenerateSpectra(toAdd: seq<string>, md: MassTable): Result<seq<Spectrum>>
  {
    if toAdd == [] then Err(ValueError) else Spectra(toAdd, md)
  }

  /** generate_spectra raises ValueError on an empty list; otherwise it yields
      one spectrum per peptide, in order, or the error of the first peptide
      without one. */
  lemma GenerateSpectraOutcome(toAdd: seq<string>, md: MassTable)
    ensures toAdd == [] ==> GenerateSpectra(toAdd, md) == Err(ValueError)
    ensures GenerateSpectra(toAdd, md).Ok? <==>
      toAdd != [] && forall i :: 0 <= i < |toAdd| ==> SpectrumOf(toAdd[i], md).Ok?
    ensures GenerateSpectra(toAdd, md).Ok? ==>
      && |GenerateSpectra(toAdd, md).value| == |toAdd|
      && forall i :: 0 <= i < |toAdd| ==> SpectrumOf(toAdd[i], md) == Ok(GenerateSpectra(toAdd, md).value[i])
  {
    SpectraShape(toAdd, md);
  }

  /** The chunk size generate_spectra uses with a progress callback:
      ceil(len / 1000). */
  function StepSize(n: nat): (r: nat)
    requires n > 0
    ensures r >= 1 && (r - 1) * 1000 < n <= r * 1000
  {
    (n + 999) / 1000
  }

  /** The chunked loop of generate_spectra: get_spectra on consecutive slices of
      `stepsize` peptides, the results joined. */
  method SpectraInChunks(toAdd: seq<string>, md: MassTable, stepsize: nat) returns (r: Result<seq<Spectrum>>)
    requires stepsize >= 1
    ensures r == Spectra(toAdd, md)
  {
    ghost var f := p => SpectrumOf(p, md);
    var n := |toAdd|;
    var spectra := [];
    var i := 0;
    while i < n
      invariant i <= n
      invariant MapAll(f, toAdd[..i]) == Ok(spectra)
      decreases n - i
    {
      var end := if i + stepsize <= n then i + stepsize else n;
      var sub := GetSpectra(toAdd[i..end], md);
      MapAllChunk(f, toAdd, i, end, spectra);
      if sub.Err? {
        return Err(sub.error);
      }
      spectra := spectra + sub.value;
      i := end;
    }
    assert toAdd[..n] == toAdd;
    return Ok(spectra);
  }

  /** generate_spectra. With a progress callback it computes the spectra chunk by
      chunk; either way the result is that of get_spectra on the whole list. */
  method BuildSpectra(toAdd: seq<string>, md: MassTable, callback: bool)
    returns (r: Result<seq<Spectrum>>)
    ensures r == GenerateSpectra(toAdd, md)
  {
    if |toAdd| == 0 {
      return Err(ValueError);
    }
    if callback {
      r := SpectraInChunks(toAdd, md, StepSize(|toAdd|));
    } else {
      r := GetSpectra(toAdd, md);
    }
  }
}
