/** Building the peptide database: the FASTA record filter, the partition of the
    record list into blocks, digesting one block (`digest_fasta_block`), and
    joining the block results after the worker pool
    (`generate_database_parallel`). */
module Database {
  import opened Outcomes
  import opened Seqs
  import opened Text
  import opened Digestion
  import opened Peptides
  import opened Masses
  import opened Spectra
  import opened PeptIndex
  import opened Sorting

  /** One FASTA entry as the reader yields it. */
  datatype Record = Record(id: string, name: string, description: string, sequence: string)

  /** check_sequence: the record's residues all belong to the alphabet. */
  predicate CheckSequence(r: Record, aas: set<char>)
  {
    Elems(r.sequence) <= aas
  }

  lemma CheckSequenceChars(r: Record, aas: set<char>)
    ensures CheckSequence(r, aas) <==> forall i :: 0 <= i < |r.sequence| ==> r.sequence[i] in aas
  {
    if !CheckSequence(r, aas) {
      var c :| c in Elems(r.sequence) && c !in aas;
      var i :| 0 <= i < |r.sequence| && r.sequence[i] == c;
    }
  }

  /** The records that pass check_sequence, in order. */
  function ValidRecords(records: seq<Record>, aas: set<char>): seq<Record>
  {
    if records == [] then []
    else
      var last := records[|records| - 1];
      ValidRecords(records[..|records| - 1], aas) + (if CheckSequence(last, aas) then [last] else [])
  }

  /** The filter keeps exactly the records that pass the check, never more than
      it was given. */
  lemma {:induction false} ValidRecordsSpec(records: seq<Record>, aas: set<char>)
    ensures forall r :: r in ValidRecords(records, aas) <==> r in records && CheckSequence(r, aas)
    ensures |ValidRecords(records, aas)| <= |records|
  {
    if records != [] {
      ValidRecordsSpec(records[..|records| - 1], aas);
      assert records == records[..|records| - 1] + [records[|records| - 1]];
    }
  }

  lemma {:induction false} ValidRecordsAppend(a: seq<Record>, b: seq<Record>, aas: set<char>)
    ensures ValidRecords(a + b, aas) == ValidRecords(a, aas) + ValidRecords(b, aas)
    decreases |b|
  {
    if b == [] {
      assert a + b == a;
    } else {
      var c := a + b;
      assert c[..|c| - 1] == a + b[..|b| - 1];
      ValidRecordsAppend(a, b[..|b| - 1], aas);
    }
  }

  /** The inner loop of generate_fasta_list over one file's records: every record
      that passes the check is appended and numbered with the next index. */
  method FilterRecords(records: seq<Record>, aas: set<char>, list0: seq<Record>, dict0: map<int, Record>)
    returns (fastaList: seq<Record>, fastaDict: map<int, Record>)
    requires forall i :: i in dict0 <==> 0 <= i < |list0|
    requires forall i :: 0 <= i < |list0| ==> dict0[i] == list0[i]
    ensures fastaList == list0 + ValidRecords(records, aas)
    ensures forall i :: i in fastaDict <==> 0 <= i < |fastaList|
    ensures forall i :: 0 <= i < |fastaList| ==> fastaDict[i] == fastaList[i]
  {
    fastaList, fastaDict := list0, dict0;
    var fastaIndex := |list0|;
    for e := 0 to |records|
      invariant fastaList == list0 + ValidRecords(records[..e], aas)
      invariant fastaIndex == |fastaList|
      invariant forall i :: i in fastaDict <==> 0 <= i < |fastaList|
      invariant forall i :: 0 <= i < |fastaList| ==> fastaDict[i] == fastaList[i]
    {
      var element := records[e];
      assert records[..e + 1][..e] == records[..e];
      if CheckSequence(element, aas) {
        fastaList := fastaList + [element];
        fastaDict := fastaDict[fastaIndex := element];
        fastaIndex := fastaIndex + 1;
      }
    }
    assert records[..|records|] == records;
  }

  /** generate_fasta_list over files already read: each file's records in order;
      the records that pass check_sequence are listed and numbered from 0. */
  method GenerateFastaList(files: seq<seq<Record>>, aas: set<char>)
    returns (fastaList: seq<Record>, fastaDict: map<int, Record>)
    ensures fastaList == ValidRecords(Flatten(files), aas)
    ensures forall i :: i in fastaDict <==> 0 <= i < |fastaList|
    ensures forall i :: 0 <= i < |fastaList| ==> fastaDict[i] == fastaList[i]
  {
    fastaList := [];
    fastaDict := map[];
    for f := 0 to |files|
      invariant fastaList == ValidRecords(Flatten(files[..f]), aas)
      invariant forall i :: i in fastaDict <==> 0 <= i < |fastaList|
      invariant forall i :: 0 <= i < |fastaList| ==> fastaDict[i] == fastaList[i]
    {
      fastaList, fastaDict := FilterRecords(files[f], aas, fastaList, fastaDict);
      assert files[..f + 1][..f] == files[..f];
      ValidRecordsAppend(Flatten(files[..f]), files[f], aas);
    }
    assert files[..|files|] == files;
  }

  /** The windows block_idx returns for a list of length len: len / b + 1
      windows of width b, starting at 0, each starting where the previous ends. */
  function BlockWindows(len: nat, b: nat): (r: seq<(int, int)>)
    requires b > 0
  {
    seq(len / b + 1, i requires 0 <= i <= len / b => (i * b, (i + 1) * b))
  }

  lemma MulLe(x: nat, y: nat, b: nat)
    requires x <= y
    ensures x * b <= y * b
  {
  }

  lemma MulSucc(i: int, b: int)
    ensures (i + 1) * b == i * b + b
  {
  }

  /** The quotient is the only q with q * b <= len < (q + 1) * b. */
  lemma DivUnique(len: nat, b: nat, q: nat)
    requires b > 0 && q * b <= len < (q + 1) * b
    ensures q == len / b
  {
    var d := len / b;
    var r := len % b;
    assert len == d * b + r && 0 <= r < b;
    if q <= d {
      MulLe(q + 1, d + 1, b);
    }
    if d <= q {
      MulLe(d + 1, q + 1, b);
    }
  }

  /** block_idx: the while loop extending the windows until one ends past len. */
  method BlockIdx(len: nat, b: int) returns (blocks: seq<(int, int)>)
    requires b > 0
    ensures blocks == BlockWindows(len, b)
  {
    blocks := [];
    var start := 0;
    var end := 0;
    while end <= len
      invariant start == end == |blocks| * b
      invariant blocks == seq(|blocks|, i requires 0 <= i < |blocks| => (i * b, (i + 1) * b))
      invariant |blocks| == 0 || (|blocks| - 1) * b <= len
      decreases len + b - end
    {
      end := end + b;
      blocks := blocks + [(start, end)];
      start := end;
    }
    DivUnique(len, b, |blocks| - 1);
  }

  /** The windows cover 0..len: the first starts at 0, each has width b and starts
      where the one before ends, and the last starts at or before len and ends
      after it. */
  lemma BlockWindowsCover(len: nat, b: nat)
    requires b > 0
    ensures var w := BlockWindows(len, b);
      && |w| == len / b + 1
      && w[0].0 == 0
      && (forall i :: 0 <= i < |w| ==> w[i].1 - w[i].0 == b)
      && (forall i :: 0 <= i < |w| - 1 ==> w[i].1 == w[i + 1].0)
      && w[|w| - 1].0 <= len < w[|w| - 1].1
  {
    var w := BlockWindows(len, b);
    var q := len / b;
    assert w[0].0 == 0 * b == 0;
    forall i | 0 <= i < |w| ensures w[i].1 - w[i].0 == b {
      MulSucc(i, b);
    }
    assert q * b + len % b == len;
    MulSucc(q, b);
  }

  /** `blocks(l, n)`: consecutive slices of max(1, n) elements, the last one
      possibly shorter. */
  function Blocks<T>(l: seq<T>, n: int): seq<seq<T>>
    decreases |l|
  {
    var m := if n < 1 then 1 else n;
    if l == [] then [] else if |l| <= m then [l] else [l[..m]] + Blocks(l[m..], n)
  }

  /** The slices join back to the list. */
  lemma {:induction false} BlocksFlatten<T>(l: seq<T>, n: int)
    ensures Flatten(Blocks(l, n)) == l
    decreases |l|
  {
    var m := if n < 1 then 1 else n;
    if l == [] {
    } else if |l| <= m {
      assert Blocks(l, n) == [l];
      FlattenOne(l);
    } else {
      var rest := Blocks(l[m..], n);
      assert Blocks(l, n) == [l[..m]] + rest;
      BlocksFlatten(l[m..], n);
      FlattenCons(l[..m], rest);
      assert l[..m] + l[m..] == l;
    }
  }

  /** Each slice is non-empty and has at most max(1, n) elements, and every
      slice but the last has exactly that many. */
  lemma {:induction false} BlocksSizes<T>(l: seq<T>, n: int)
    ensures forall i :: 0 <= i < |Blocks(l, n)| ==> 1 <= |Blocks(l, n)[i]| <= (if n < 1 then 1 else n)
    ensures forall i :: 0 <= i < |Blocks(l, n)| - 1 ==> |Blocks(l, n)[i]| == (if n < 1 then 1 else n)
    decreases |l|
  {
    var m := if n < 1 then 1 else n;
    if l != [] && |l| > m {
      BlocksSizes(l[m..], n);
      var r, rest := Blocks(l, n), Blocks(l[m..], n);
      assert r == [l[..m]] + rest;
      assert forall i :: 0 < i < |r| ==> r[i] == rest[i - 1];
    }
  }

  /** generate_peptides (here `gen`) on each record of a block, stopping at the
      first record that raises. */
  function PeptideLists(block: seq<Record>, gen: string --> Result<seq<string>>): Result<seq<seq<string>>>
    requires forall p :: gen.requires(p)
  {
    if block == [] then Ok([])
    else
      var init :- PeptideLists(block[..|block| - 1], gen);
      var last :- gen(block[|block| - 1].sequence);
      Ok(init + [last])
  }

  lemma {:induction false} PeptideListsErrSticks(block: seq<Record>, gen: string --> Result<seq<string>>, i: nat)
    requires forall p :: gen.requires(p)
    requires i <= |block| && PeptideLists(block[..i], gen).Err?
    ensures PeptideLists(block, gen) == PeptideLists(block[..i], gen)
    decreases |block| - i
  {
    if i < |block| {
      assert block[..i + 1][..i] == block[..i];
      PeptideListsErrSticks(block, gen, i + 1);
    } else {
      assert block[..i] == block;
    }
  }

  /** One more record of the loop. */
  lemma PeptideListsStep(block: seq<Record>, gen: string --> Result<seq<string>>, f: nat, pls: seq<seq<string>>)
    requires forall p :: gen.requires(p)
    requires f < |block| && PeptideLists(block[..f], gen) == Ok(pls)
    ensures gen(block[f].sequence).Ok? ==> PeptideLists(block[..f + 1], gen) == Ok(pls + [gen(block[f].sequence).value])
    ensures gen(block[f].sequence).Err? ==> PeptideLists(block[..f + 1], gen) == Err(gen(block[f].sequence).error)
  {
    assert block[..f + 1][..f] == block[..f];
  }

  /** The lists are there exactly when every record digests, one list per record. */
  lemma {:induction false} PeptideListsShape(block: seq<Record>, gen: string --> Result<seq<string>>)
    requires forall p :: gen.requires(p)
    ensures PeptideLists(block, gen).Ok? <==> forall f :: 0 <= f < |block| ==> gen(block[f].sequence).Ok?
    ensures PeptideLists(block, gen).Ok? ==>
      && |PeptideLists(block, gen).value| == |block|
      && forall f :: 0 <= f < |block| ==> gen(block[f].sequence) == Ok(PeptideLists(block, gen).value[f])
  {
    if block != [] {
      var init := block[..|block| - 1];
      PeptideListsShape(init, gen);
      assert forall f :: 0 <= f < |init| ==> init[f] == block[f];
    }
  }

  /** The per-record loop of digest_fasta_block on the peptide lists: list f is
      added with protein id fastaIndex + f. */
  function AddRecords(pls: seq<seq<string>>, fastaIndex: int): Index
  {
    if pls == [] then Index([], map[])
    else AddAll(AddRecords(pls[..|pls| - 1], fastaIndex), pls[|pls| - 1], fastaIndex + |pls| - 1).0
  }

  /** One more list of the loop. */
  lemma AddRecordsStep(pls: seq<seq<string>>, v: seq<string>, fastaIndex: int, id: int)
    requires id == fastaIndex + |pls|
    ensures AddRecords(pls + [v], fastaIndex) == AddAll(AddRecords(pls, fastaIndex), v, id).0
  {
    var q := pls + [v];
    assert q[..|q| - 1] == pls;
  }

  /** The block's dictionary is well formed. */
  lemma {:induction false} AddRecordsValid(pls: seq<seq<string>>, fastaIndex: int)
    ensures ValidIndex(AddRecords(pls, fastaIndex))
  {
    if pls != [] {
      AddRecordsValid(pls[..|pls| - 1], fastaIndex);
      AddAllKeys(AddRecords(pls[..|pls| - 1], fastaIndex), pls[|pls| - 1], fastaIndex + |pls| - 1);
    }
  }

  /** A peptide is a key exactly when some list holds it. */
  lemma {:induction false} AddRecordsKeySet(pls: seq<seq<string>>, fastaIndex: int)
    ensures forall k :: k in AddRecords(pls, fastaIndex).vals <==> exists f :: 0 <= f < |pls| && k in pls[f]
  {
    if pls != [] {
      var init := pls[..|pls| - 1];
      var last := |pls| - 1;
      AddRecordsKeySet(init, fastaIndex);
      var prev := AddRecords(init, fastaIndex);
      AddAllVals(prev, pls[last], fastaIndex + last);
      var d := AddRecords(pls, fastaIndex);
      assert d == AddAll(prev, pls[last], fastaIndex + last).0;
      forall k | k in d.vals ensures exists f :: 0 <= f < |pls| && k in pls[f] {
        if k !in pls[last] {
          assert k in prev.vals;
          var f :| 0 <= f < |init| && k in init[f];
          assert pls[f] == init[f];
        } else {
          assert k in pls[last];
        }
      }
      forall k, f | 0 <= f < |pls| && k in pls[f] ensures k in d.vals {
        if f < last {
          assert init[f] == pls[f];
        }
      }
    }
  }

  /** Each id of a peptide is fastaIndex + f for a list f that holds it. */
  predicate IdsFrom(d: Index, pls: seq<seq<string>>, fastaIndex: int)
  {
    forall k, j :: k in d.vals && 0 <= j < |d.vals[k]| ==>
      0 <= d.vals[k][j] - fastaIndex < |pls| && k in pls[d.vals[k][j] - fastaIndex]
  }

  lemma {:induction false} AddRecordsIds(pls: seq<seq<string>>, fastaIndex: int)
    ensures IdsFrom(AddRecords(pls, fastaIndex), pls, fastaIndex)
  {
    if pls != [] {
      var init := pls[..|pls| - 1];
      var last := |pls| - 1;
      AddRecordsIds(init, fastaIndex);
      var prev := AddRecords(init, fastaIndex);
      AddAllVals(prev, pls[last], fastaIndex + last);
      var d := AddRecords(pls, fastaIndex);
      assert d == AddAll(prev, pls[last], fastaIndex + last).0;
      forall k, j | k in d.vals && 0 <= j < |d.vals[k]|
        ensures 0 <= d.vals[k][j] - fastaIndex < |pls| && k in pls[d.vals[k][j] - fastaIndex]
      {
        var old_ := Get(prev, k);
        assert d.vals[k] == old_ + Repeat(fastaIndex + last, Count(pls[last], k));
        if j < |old_| {
          assert k in prev.vals && old_ == prev.vals[k];
          assert d.vals[k][j] == prev.vals[k][j];
          var f := prev.vals[k][j] - fastaIndex;
          assert 0 <= f < |init| && k in init[f];
          assert init[f] == pls[f];
        } else {
          CountAbsent(pls[last], k);
        }
      }
    }
  }

  /** Every peptide of list f is a key and lists protein id fastaIndex + f. */
  lemma {:induction false} AddRecordsHas(pls: seq<seq<string>>, fastaIndex: int)
    ensures forall f, k :: 0 <= f < |pls| && k in pls[f] ==>
      k in AddRecords(pls, fastaIndex).vals && fastaIndex + f in AddRecords(pls, fastaIndex).vals[k]
  {
    if pls != [] {
      var init := pls[..|pls| - 1];
      var last := |pls| - 1;
      AddRecordsHas(init, fastaIndex);
      var prev := AddRecords(init, fastaIndex);
      AddAllVals(prev, pls[last], fastaIndex + last);
      var d := AddRecords(pls, fastaIndex);
      assert d == AddAll(prev, pls[last], fastaIndex + last).0;
      forall f, k | 0 <= f < |pls| && k in pls[f] ensures k in d.vals && fastaIndex + f in d.vals[k] {
        var rep := Repeat(fastaIndex + last, Count(pls[last], k));
        if f < last {
          assert init[f] == pls[f];
          assert d.vals[k] == prev.vals[k] + rep;
        } else {
          CountAbsent(pls[last], k);
          assert d.vals[k][|Get(prev, k)|] == rep[0];
        }
      }
    }
  }

  /** AddRecordsHas for one list and one peptide. */
  lemma AddRecordsHasOne(pls: seq<seq<string>>, fastaIndex: int, f: nat, k: string, id: int)
    requires f < |pls| && k in pls[f] && id == fastaIndex + f
    ensures k in AddRecords(pls, fastaIndex).vals && id in AddRecords(pls, fastaIndex).vals[k]
    ensures id in Get(AddRecords(pls, fastaIndex), k)
  {
    AddRecordsHas(pls, fastaIndex);
  }

  /** A listed id names a list that holds the peptide. */
  lemma IdsFromOne(d: Index, pls: seq<seq<string>>, fastaIndex: int, k: string, id: int) returns (f: nat)
    requires IdsFrom(d, pls, fastaIndex) && id in Get(d, k)
    ensures f < |pls| && id == fastaIndex + f && k in pls[f]
  {
    var x :| 0 <= x < |d.vals[k]| && d.vals[k][x] == id;
    f := id - fastaIndex;
  }

  /** generate_peptides under fixed settings. */
  function Generator(st: Settings): (gen: string --> Result<seq<string>>)
    requires ValidProtease(st.sites)
    ensures forall p :: gen.requires(p)
  {
    p requires ValidProtease(st.sites) => GeneratedPeptides(p, st)
  }

  /** The per-record loop of digest_fasta_block. */
  function DigestPeptides(fastaIndex: int, block: seq<Record>, st: Settings): Result<Index>
    requires ValidProtease(st.sites)
  {
    var pls :- PeptideLists(block, Generator(st));
    Ok(AddRecords(pls, fastaIndex))
  }

  /** The lists of a digested block are generate_peptides of its records. */
  lemma GeneratedLists(block: seq<Record>, st: Settings, pls: seq<seq<string>>)
    requires ValidProtease(st.sites) && PeptideLists(block, Generator(st)) == Ok(pls)
    ensures |pls| == |block|
    ensures forall f :: 0 <= f < |block| ==> GeneratedPeptides(block[f].sequence, st) == Ok(pls[f])
  {
    var gen := Generator(st);
    PeptideListsShape(block, gen);
    forall f | 0 <= f < |block| ensures GeneratedPeptides(block[f].sequence, st) == Ok(pls[f]) {
      assert gen(block[f].sequence) == Ok(pls[f]);
    }
  }

  /** Every record of a digested block is digested, and the block's dictionary
      is well formed. */
  lemma DigestPeptidesKeys(fastaIndex: int, block: seq<Record>, st: Settings)
    requires ValidProtease(st.sites) && DigestPeptides(fastaIndex, block, st).Ok?
    ensures forall f :: 0 <= f < |block| ==> GeneratedPeptides(block[f].sequence, st).Ok?
    ensures ValidIndex(DigestPeptides(fastaIndex, block, st).value)
  {
    var pls := PeptideLists(block, Generator(st)).value;
    PeptideListsShape(block, Generator(st));
    AddRecordsValid(pls, fastaIndex);
  }

  /** A peptide is a key of the block's dictionary exactly when some record of
      the block generates it. */
  lemma DigestPeptidesKeySet(fastaIndex: int, block: seq<Record>, st: Settings)
    requires ValidProtease(st.sites) && DigestPeptides(fastaIndex, block, st).Ok?
    ensures forall f :: 0 <= f < |block| ==> GeneratedPeptides(block[f].sequence, st).Ok?
    ensures forall k :: k in DigestPeptides(fastaIndex, block, st).value.vals <==>
      exists f :: 0 <= f < |block| && k in GeneratedPeptides(block[f].sequence, st).value
  {
    var pls := PeptideLists(block, Generator(st)).value;
    PeptideListsShape(block, Generator(st));
    AddRecordsKeySet(pls, fastaIndex);
    var d := DigestPeptides(fastaIndex, block, st).value;
    assert d == AddRecords(pls, fastaIndex);
    forall k ensures k in d.vals <==> exists f :: 0 <= f < |block| && k in GeneratedPeptides(block[f].sequence, st).value {
      if k in d.vals {
        var f :| 0 <= f < |pls| && k in pls[f];
        assert GeneratedPeptides(block[f].sequence, st).value == pls[f];
      }
      if exists f :: 0 <= f < |block| && k in GeneratedPeptides(block[f].sequence, st).value {
        var f :| 0 <= f < |block| && k in GeneratedPeptides(block[f].sequence, st).value;
        assert GeneratedPeptides(block[f].sequence, st).value == pls[f];
      }
    }
  }

  /** A record of a digested block lists its protein id under each peptide it
      generates. */
  lemma DigestPeptidesListed(fastaIndex: int, block: seq<Record>, st: Settings, d: Index, f: nat, k: string, id: int)
    requires ValidProtease(st.sites) && DigestPeptides(fastaIndex, block, st) == Ok(d)
    requires f < |block| && GeneratedPeptides(block[f].sequence, st).Ok?
    requires k in GeneratedPeptides(block[f].sequence, st).value && id == fastaIndex + f
    ensures k in d.vals && id in d.vals[k] && id in Get(d, k)
  {
    var pls := PeptideLists(block, Generator(st)).value;
    GeneratedLists(block, st, pls);
    assert k in pls[f];
    AddRecordsHasOne(pls, fastaIndex, f, k, id);
  }

  /** Each id listed under a peptide of the block's dictionary is fastaIndex + f
      for a record f of the block that generates the peptide. */
  lemma DigestPeptidesIdOf(fastaIndex: int, block: seq<Record>, st: Settings, d: Index, k: string, id: int)
    returns (f: nat)
    requires ValidProtease(st.sites) && DigestPeptides(fastaIndex, block, st) == Ok(d) && id in Get(d, k)
    ensures f < |block| && id == fastaIndex + f
    ensures GeneratedPeptides(block[f].sequence, st).Ok? && k in GeneratedPeptides(block[f].sequence, st).value
  {
    var pls := PeptideLists(block, Generator(st)).value;
    GeneratedLists(block, st, pls);
    AddRecordsIds(pls, fastaIndex);
    assert d == AddRecords(pls, fastaIndex);
    f := IdsFromOne(d, pls, fastaIndex, k, id);
  }

  /** The spectra of the chunks of to_add, one generate_spectra call per chunk,
      joined. */
  function ChunkSpectra(chunks: seq<seq<string>>, md: MassTable): Result<seq<Spectrum>>
  {
    var parts :- MapAll(c => GenerateSpectra(c, md), chunks);
    Ok(Flatten(parts))
  }

  /** Chunking does not change the spectra: for non-empty chunks it is
      get_spectra on their join. */
  lemma {:induction false} ChunkSpectraJoin(chunks: seq<seq<string>>, md: MassTable)
    requires forall i :: 0 <= i < |chunks| ==> chunks[i] != []
    ensures ChunkSpectra(chunks, md) == Spectra.Spectra(Flatten(chunks), md)
  {
    var g := c => GenerateSpectra(c, md);
    var f := p => SpectrumOf(p, md);
    if chunks != [] {
      var init, c := chunks[..|chunks| - 1], chunks[|chunks| - 1];
      ChunkSpectraJoin(init, md);
      MapAllAppend(f, Flatten(init), c);
      assert GenerateSpectra(c, md) == Spectra.Spectra(c, md);
    }
  }

  /** digest_fasta_block: the block's dictionary and the spectra of its new
      peptides, computed in chunks of spectra_block. */
  function DigestFastaBlock(fastaIndex: int, block: seq<Record>, st: Settings, md: MassTable, spectraBlock: int)
    : Result<(seq<Spectrum>, Index)>
    requires ValidProtease(st.sites)
  {
    var d :- DigestPeptides(fastaIndex, block, st);
    var toAdd := d.keys;
    var spectra :- if toAdd == [] then Ok([]) else ChunkSpectra(Blocks(toAdd, spectraBlock), md);
    Ok((spectra, d))
  }

  /** A digested block holds one spectrum per key of its dictionary, in key
      order, each the spectrum of that peptide. */
  lemma DigestFastaBlockSpectra(fastaIndex: int, block: seq<Record>, st: Settings, md: MassTable, spectraBlock: int)
    requires ValidProtease(st.sites) && DigestFastaBlock(fastaIndex, block, st, md, spectraBlock).Ok?
    ensures var r := DigestFastaBlock(fastaIndex, block, st, md, spectraBlock).value;
      && DigestPeptides(fastaIndex, block, st) == Ok(r.1)
      && ValidIndex(r.1)
      && |r.0| == |r.1.keys|
      && forall i :: 0 <= i < |r.0| ==> SpectrumOf(r.1.keys[i], md) == Ok(r.0[i]) && r.0[i].sequence == r.1.keys[i]
  {
    DigestPeptidesKeys(fastaIndex, block, st);
    var toAdd := DigestPeptides(fastaIndex, block, st).value.keys;
    var r := DigestFastaBlock(fastaIndex, block, st, md, spectraBlock).value;
    if toAdd != [] {
      var chunks := Blocks(toAdd, spectraBlock);
      BlocksFlatten(toAdd, spectraBlock);
      BlocksSizes(toAdd, spectraBlock);
      ChunkSpectraJoin(chunks, md);
      SpectraShape(toAdd, md);
      forall i | 0 <= i < |r.0| ensures r.0[i].sequence == r.1.keys[i] {
        SpectrumShape(toAdd[i], md);
      }
    }
  }

  /** One record of the loop: its peptides join the dictionary with id `id`,
      and the new ones extend the keys. */
  method AddRecord(pd: PeptDict, ghost pls: seq<seq<string>>, v: seq<string>, fastaIndex: int, id: int)
    returns (added: seq<string>)
    requires pd.Model() == AddRecords(pls, fastaIndex) && id == fastaIndex + |pls|
    modifies pd
    ensures pd.Model() == AddRecords(pls + [v], fastaIndex)
    ensures pd.Model().keys == old(pd.Model().keys) + added
  {
    ghost var m0 := pd.Model();
    AddRecordsStep(pls, v, fastaIndex, id);
    AddRecordsValid(pls, fastaIndex);
    AddAllKeys(m0, v, id);
    added := pd.AddPeptides(v, id);
  }

  /** The record loop of digest_fasta_block on a fresh dictionary, with
      generate_peptides under the block's settings as `gen`. */
  method DigestRecords(fastaIndex: int, block: seq<Record>, gen: string --> Result<seq<string>>)
    returns (r: Result<seq<string>>, pd: PeptDict)
    requires forall p :: gen.requires(p)
    ensures fresh(pd)
    ensures var x := PeptideLists(block, gen);
      && (r.Ok? <==> x.Ok?)
      && (r.Err? ==> r.error == x.error)
      && (r.Ok? ==> pd.Model() == AddRecords(x.value, fastaIndex) && r.value == pd.Model().keys)
  {
    pd := new PeptDict();
    var toAdd := [];
    ghost var pls := [];
    for f := 0 to |block|
      invariant fresh(pd)
      invariant PeptideLists(block[..f], gen) == Ok(pls)
      invariant AddRecords(pls, fastaIndex) == pd.Model() && toAdd == pd.Model().keys
      invariant |pls| == f
    {
      var modPeptides := gen(block[f].sequence);
      PeptideListsStep(block, gen, f, pls);
      if modPeptides.Err? {
        PeptideListsErrSticks(block, gen, f + 1);
        return Err(modPeptides.error), pd;
      }
      var added := AddRecord(pd, pls, modPeptides.value, fastaIndex, fastaIndex + f);
      toAdd := toAdd + added;
      pls := pls + [modPeptides.value];
    }
    assert block[..|block|] == block;
    return Ok(toAdd), pd;
  }

  /** The chunk loop of digest_fasta_block: generate_spectra on each chunk of
      to_add, results appended. */
  method SpectraOfChunks(toAdd: seq<string>, md: MassTable, spectraBlock: int) returns (r: Result<seq<Spectrum>>)
    ensures r == if toAdd == [] then Ok([]) else ChunkSpectra(Blocks(toAdd, spectraBlock), md)
  {
    var spectra := [];
    if |toAdd| > 0 {
      var chunks := Blocks(toAdd, spectraBlock);
      ghost var g := c => GenerateSpectra(c, md);
      ghost var parts := [];
      for c := 0 to |chunks|
        invariant MapAll(g, chunks[..c]) == Ok(parts) && spectra == Flatten(parts)
      {
        var sub := BuildSpectra(chunks[c], md, false);
        assert g(chunks[c]) == sub;
        if sub.Err? {
          MapAllFailsAt(g, chunks, c);
          return Err(sub.error);
        }
        MapAllSnoc(g, chunks, c, parts, sub.value);
        FlattenSnoc(parts, sub.value);
        spectra := spectra + sub.value;
        parts := parts + [sub.value];
      }
      assert chunks[..|chunks|] == chunks;
    }
    return Ok(spectra);
  }

  /** digest_fasta_block: a fresh dictionary filled record by record, then the
      spectra of to_add chunk by chunk. */
  method DigestFastaBlockMethod(fastaIndex: int, block: seq<Record>, st: Settings, md: MassTable, spectraBlock: int)
    returns (r: Result<seq<Spectrum>>, pd: PeptDict)
    requires ValidProtease(st.sites)
    ensures fresh(pd)
    ensures var x := DigestFastaBlock(fastaIndex, block, st, md, spectraBlock);
      && (r.Ok? <==> x.Ok?)
      && (r.Err? ==> r.error == x.error)
      && (r.Ok? ==> r.value == x.value.0 && pd.Model() == x.value.1)
  {
    var toAdd;
    toAdd, pd := DigestRecords(fastaIndex, block, Generator(st));
    if toAdd.Err? {
      return Err(toAdd.error), pd;
    }
    r := SpectraOfChunks(toAdd.value, md, spectraBlock);
  }

  /** `key=lambda x: x[1]`: spectra compared by peptide sequence, as Python
      compares strings. */
  predicate SeqLe(a: Spectrum, b: Spectrum)
  {
    LexLe(a.sequence, b.sequence)
  }

  lemma SeqLeTotalPreorder()
    ensures TotalPreorder(SeqLe)
  {
    forall a: Spectrum, b: Spectrum ensures SeqLe(a, b) || SeqLe(b, a) {
      LexLeTotal(a.sequence, b.sequence);
    }
    forall a: Spectrum, b: Spectrum, c: Spectrum | SeqLe(a, b) && SeqLe(b, c) ensures SeqLe(a, c) {
      LexLeTransitive(a.sequence, b.sequence, c.sequence);
    }
  }

  /** The indices idx < n of the dedup comprehension: those whose spectrum's
      sequence differs from the next one's. */
  function RunEndIndices(s: seq<Spectrum>, n: nat): (ks: seq<nat>)
    requires n < |s|
    ensures forall i :: 0 <= i < |ks| ==> ks[i] < n
    ensures forall i, j :: 0 <= i < j < |ks| ==> ks[i] < ks[j]
  {
    if n == 0 then []
    else RunEndIndices(s, n - 1) + (if s[n - 1].sequence != s[n].sequence then [n - 1] else [])
  }

  lemma {:induction false} RunEndIndicesMembers(s: seq<Spectrum>, n: nat)
    requires n < |s|
    ensures forall k :: 0 <= k < n ==> (k in RunEndIndices(s, n) <==> s[k].sequence != s[k + 1].sequence)
  {
    if n > 0 {
      RunEndIndicesMembers(s, n - 1);
    }
  }

  /** The positions the dedup keeps: the run ends, then the last position. */
  function KeptIndices(s: seq<Spectrum>): (ks: seq<nat>)
    requires s != []
    ensures |ks| >= 1 && ks[|ks| - 1] == |s| - 1
    ensures forall i :: 0 <= i < |ks| ==> ks[i] < |s|
    ensures forall i, j :: 0 <= i < j < |ks| ==> ks[i] < ks[j]
  {
    RunEndIndices(s, |s| - 1) + [|s| - 1]
  }

  /** The dedup of the sorted spectra: the comprehension over run ends, then
      `spectra[-1]`, which raises IndexError when there are no spectra. */
  function Dedup(s: seq<Spectrum>): Result<seq<Spectrum>>
  {
    if s == [] then Err(IndexError)
    else
      var ks := KeptIndices(s);
      Ok(seq(|ks|, i requires 0 <= i < |ks| => s[ks[i]]))
  }

  /** Past a run end, a sorted list holds only larger sequences. */
  lemma SortedRunEnd(s: seq<Spectrum>, m: nat, k: nat)
    requires SortedBy(s, SeqLe) && m < k < |s| && s[m].sequence != s[m + 1].sequence
    ensures LexLe(s[m].sequence, s[k].sequence) && s[k].sequence != s[m].sequence
  {
    assert SeqLe(s[m], s[m + 1]) && SeqLe(s[m], s[k]);
    if k > m + 1 && s[k].sequence == s[m].sequence {
      assert SeqLe(s[m + 1], s[k]);
      LexLeAntisymmetric(s[m].sequence, s[m + 1].sequence);
    }
  }

  /** The end of the run that holds position k. */
  lemma {:induction false} RunEndAfter(s: seq<Spectrum>, k: nat) returns (m: nat)
    requires k < |s|
    ensures k <= m < |s| && s[m].sequence == s[k].sequence
    ensures m == |s| - 1 || s[m].sequence != s[m + 1].sequence
    decreases |s| - k
  {
    if k == |s| - 1 || s[k].sequence != s[k + 1].sequence {
      m := k;
    } else {
      m := RunEndAfter(s, k + 1);
    }
  }

  /** No later spectrum has the sequence of the one at m. */
  predicate LastOfRun(s: seq<Spectrum>, m: nat)
  {
    m < |s| && forall k :: m < k < |s| ==> s[k].sequence != s[m].sequence
  }

  /** The spectrum at i of r is the last of its run in s. */
  ghost predicate KeptIsLast(s: seq<Spectrum>, r: seq<Spectrum>, i: nat)
    requires i < |r|
  {
    exists m: nat :: m < |s| && s[m] == r[i] && LastOfRun(s, m)
  }

  /** Each spectrum of r is the last of its run in s. */
  ghost predicate KeptAreLast(s: seq<Spectrum>, r: seq<Spectrum>)
  {
    forall i: nat :: i < |r| ==> KeptIsLast(s, r, i)
  }

  /** The dedup fails exactly on an empty list. Otherwise it keeps spectra of
      the input, and every sequence of the input is the sequence of one it
      keeps. */
  lemma DedupShape(s: seq<Spectrum>)
    ensures Dedup(s).Err? <==> s == []
    ensures Dedup(s).Err? ==> Dedup(s).error == IndexError
    ensures Dedup(s).Ok? ==> var r := Dedup(s).value;
      && (forall i :: 0 <= i < |r| ==> r[i] in s)
      && (forall k :: 0 <= k < |s| ==> exists i :: 0 <= i < |r| && r[i].sequence == s[k].sequence)
  {
    if s != [] {
      var ks := KeptIndices(s);
      var r := Dedup(s).value;
      forall i | 0 <= i < |r| ensures r[i] in s {
        assert r[i] == s[ks[i]];
      }
      forall k | 0 <= k < |s| ensures exists i :: 0 <= i < |r| && r[i].sequence == s[k].sequence {
        var i := DedupKeeps(s, k);
      }
    }
  }

  /** The position of the dedup that keeps the sequence of position k. */
  lemma DedupKeeps(s: seq<Spectrum>, k: nat) returns (i: nat)
    requires k < |s|
    ensures Dedup(s).Ok? && i < |Dedup(s).value| && Dedup(s).value[i].sequence == s[k].sequence
  {
    var ks := KeptIndices(s);
    var m := RunEndAfter(s, k);
    if m == |s| - 1 {
      i := |ks| - 1;
    } else {
      var ends := RunEndIndices(s, |s| - 1);
      RunEndIndicesMembers(s, |s| - 1);
      assert m in ends;
      i :| 0 <= i < |ends| && ends[i] == m;
      assert ks[i] == m;
    }
  }

  /** A kept position other than the last is a run end. */
  lemma KeptIsRunEnd(s: seq<Spectrum>, i: nat)
    requires s != [] && i < |KeptIndices(s)| - 1
    ensures KeptIndices(s)[i] < |s| - 1
    ensures s[KeptIndices(s)[i]].sequence != s[KeptIndices(s)[i] + 1].sequence
  {
    var ends := RunEndIndices(s, |s| - 1);
    RunEndIndicesMembers(s, |s| - 1);
    assert KeptIndices(s)[i] == ends[i] && ends[i] in ends;
  }

  /** On a list sorted by sequence, the kept spectra have strictly increasing
      sequences. */
  lemma DedupIncreasing(s: seq<Spectrum>)
    requires SortedBy(s, SeqLe) && s != []
    ensures var r := Dedup(s).value;
      forall i, j :: 0 <= i < j < |r| ==> LexLe(r[i].sequence, r[j].sequence) && r[i].sequence != r[j].sequence
  {
    var r := Dedup(s).value;
    var ks := KeptIndices(s);
    forall i, j | 0 <= i < j < |r| ensures LexLe(r[i].sequence, r[j].sequence) && r[i].sequence != r[j].sequence {
      KeptIsRunEnd(s, i);
      SortedRunEnd(s, ks[i], ks[j]);
    }
  }

  /** On a list sorted by sequence, each kept spectrum is the last one of the
      input with its sequence. */
  lemma DedupKeepsLast(s: seq<Spectrum>)
    requires SortedBy(s, SeqLe) && s != []
    ensures KeptAreLast(s, Dedup(s).value)
  {
    forall i: nat | i < |Dedup(s).value| ensures KeptIsLast(s, Dedup(s).value, i) {
      var m := KeptLastAt(s, i);
    }
  }

  /** The input position of the i-th kept spectrum ends its run. */
  lemma KeptLastAt(s: seq<Spectrum>, i: nat) returns (m: nat)
    requires SortedBy(s, SeqLe) && s != [] && i < |Dedup(s).value|
    ensures m < |s| && s[m] == Dedup(s).value[i] && LastOfRun(s, m)
  {
    var r := Dedup(s).value;
    var ks := KeptIndices(s);
    m := ks[i];
    assert r[i] == s[m];
    if i < |r| - 1 {
      KeptIsRunEnd(s, i);
      forall k | m < k < |s| ensures s[k].sequence != s[m].sequence {
        SortedRunEnd(s, m, k);
      }
    } else {
      assert m == ks[|ks| - 1] == |s| - 1;
    }
  }
}
