/** The precursor table that `save_database` writes: the precursor mass and
    the sequence of every spectrum, reordered by ascending precursor mass. */
module Store {
  import opened Outcomes
  import opened Sorting
  import opened Spectra

  /** One row of the table: `precursors[i]` and `seqs[i]`. */
  type Row = (real, string)

  function Rows(s: seq<Spectrum>): (r: seq<Row>)
    ensures |r| == |s|
  {
    seq(|s|, i requires 0 <= i < |s| => (s[i].prec, s[i].sequence))
  }

  /** The order `np.argsort(precmasses)` puts the spectra in. */
  function PrecLe(a: Spectrum, b: Spectrum): bool
  {
    a.prec <= b.prec
  }

  /** `to_save["precursors"]` and `to_save["seqs"]`. With no spectra the
      unpacking of `zip(*spectra)` raises ValueError. */
  function PrecursorTable(spectra: seq<Spectrum>): Result<(seq<real>, seq<string>)>
  {
    if spectra == [] then Err(ValueError)
    else
      var sorted := SortBy(spectra, PrecLe);
      Ok((seq(|sorted|, i requires 0 <= i < |sorted| => sorted[i].prec),
          seq(|sorted|, i requires 0 <= i < |sorted| => sorted[i].sequence)))
  }

  lemma RowsCons(x: Spectrum, s: seq<Spectrum>)
    ensures Rows([x] + s) == [(x.prec, x.sequence)] + Rows(s)
  {
  }

  /** Inserting a spectrum adds its row. */
  lemma {:induction false} InsertRows(x: Spectrum, s: seq<Spectrum>)
    ensures multiset(Rows(Insert(x, s, PrecLe))) == multiset(Rows(s)) + multiset{(x.prec, x.sequence)}
  {
    var r := Insert(x, s, PrecLe);
    if s == [] {
      assert r == [x];
    } else if PrecLe(x, s[0]) {
      assert r == [x] + s;
      RowsCons(x, s);
    } else {
      var rest := Insert(x, s[1..], PrecLe);
      InsertRows(x, s[1..]);
      assert r == [s[0]] + rest;
      RowsCons(s[0], rest);
      RowsCons(s[0], s[1..]);
      assert [s[0]] + s[1..] == s;
    }
  }

  /** Sorting the spectra rearranges their rows. */
  lemma {:induction false} SortRows(s: seq<Spectrum>)
    ensures multiset(Rows(SortBy(s, PrecLe))) == multiset(Rows(s))
  {
    if s != [] {
      SortRows(s[1..]);
      InsertRows(s[0], SortBy(s[1..], PrecLe));
      RowsCons(s[0], s[1..]);
      assert [s[0]] + s[1..] == s;
    }
  }

  /** The table fails exactly on no spectra; otherwise it has one row per
      spectrum, its precursor masses ascend, and its rows are the spectra's
      (precursor, sequence) rows rearranged. */
  lemma PrecursorTableSorted(spectra: seq<Spectrum>)
    ensures PrecursorTable(spectra).Err? <==> spectra == []
    ensures PrecursorTable(spectra).Err? ==> PrecursorTable(spectra).error == ValueError
    ensures PrecursorTable(spectra).Ok? ==>
      var precs, seqs := PrecursorTable(spectra).value.0, PrecursorTable(spectra).value.1;
      && |precs| == |seqs| == |spectra|
      && (forall i, j :: 0 <= i < j < |precs| ==> precs[i] <= precs[j])
      && multiset(seq(|precs|, i requires 0 <= i < |precs| => (precs[i], seqs[i]))) == multiset(Rows(spectra))
  {
    if spectra != [] {
      var sorted := SortBy(spectra, PrecLe);
      assert TotalPreorder(PrecLe);
      SortByCorrect(spectra, PrecLe);
      SortRows(spectra);
      var precs, seqs := PrecursorTable(spectra).value.0, PrecursorTable(spectra).value.1;
      assert seq(|precs|, i requires 0 <= i < |precs| => (precs[i], seqs[i])) == Rows(sorted);
    }
  }
}
