/** generate_database_parallel: the protein list is cut into blocks of
    fasta_block proteins, every block is digested by digest_fasta_block in a
    pool of workers whose results arrive in some order, and then the spectra
    are sorted by sequence and deduplicated while the block dictionaries are
    merged. */
module Pipeline {
  import opened Outcomes
  import opened Seqs
  import opened Text
  import opened Digestion
  import opened Peptides
  import opened Masses
  import opened Spectra
  import opened PeptIndex
  import opened Sorting
  import opened Database

  /** One entry of to_process: the index of the block's first protein and the
      block of proteins itself. */
  datatype Task = Task(start: int, block: seq<Record>)

  /** to_process: one task per window of block_idx over the protein list. */
  function ToProcess(fastaList: seq<Record>, fastaBlock: nat): (ts: seq<Task>)
    requires fastaBlock > 0
    ensures |ts| == |fastaList| / fastaBlock + 1
  {
    var w := BlockWindows(|fastaList|, fastaBlock);
    seq(|w|, i requires 0 <= i < |w| => Task(w[i].0, PySlice(fastaList, w[i].0, w[i].1)))
  }

  /** Task i starts at i * fasta_block, within the list, and holds the
      proteins from there up to the next multiple of fasta_block or the end
      of the list. */
  lemma TaskShape(fastaList: seq<Record>, fastaBlock: nat, i: nat)
    requires fastaBlock > 0 && i < |ToProcess(fastaList, fastaBlock)|
    ensures var t := ToProcess(fastaList, fastaBlock)[i]; var n := |fastaList|;
      && t.start == i * fastaBlock && 0 <= t.start <= n
      && t.block == fastaList[t.start..if t.start + fastaBlock < n then t.start + fastaBlock else n]
  {
    var n, b := |fastaList|, fastaBlock;
    MulLe(i, n / b, b);
    DivBounds(n, b);
    MulSucc(i, b);
  }

  /** q * b <= x < q * b + b for the quotient q of x by b. */
  lemma DivBounds(x: nat, b: nat)
    requires b > 0
    ensures (x / b) * b <= x < (x / b) * b + b
  {
  }

  /** Division by b does not decrease. */
  lemma DivMono(x: nat, y: nat, b: nat)
    requires b > 0 && x <= y
    ensures x / b <= y / b
  {
    var q, p := x / b, y / b;
    DivBounds(x, b);
    DivBounds(y, b);
    assert (p + 1 - q) * b == p * b + b - q * b;
    PosFactor(p + 1 - q, b);
  }

  /** A product with a positive factor is positive only if the other factor is. */
  lemma PosFactor(c: int, b: int)
    requires b > 0 && c * b > 0
    ensures c > 0
  {
  }

  /** Position f of task i is protein start + f of the list. */
  lemma TaskAt(fastaList: seq<Record>, fastaBlock: nat, i: nat, f: nat)
    requires fastaBlock > 0 && i < |ToProcess(fastaList, fastaBlock)|
    requires f < |ToProcess(fastaList, fastaBlock)[i].block|
    ensures var t := ToProcess(fastaList, fastaBlock)[i];
      0 <= t.start + f < |fastaList| && t.block[f] == fastaList[t.start + f]
  {
    TaskShape(fastaList, fastaBlock, i);
  }

  /** The task and the position within its block that hold record id. */
  lemma TaskOf(fastaList: seq<Record>, fastaBlock: nat, id: int) returns (b: nat, f: nat)
    requires fastaBlock > 0 && 0 <= id < |fastaList|
    ensures var ts := ToProcess(fastaList, fastaBlock);
      && b == id / fastaBlock
      && b < |ts| && f < |ts[b].block| && ts[b].start + f == id && ts[b].block[f] == fastaList[id]
  {
    b := id / fastaBlock;
    DivMono(id, |fastaList|, fastaBlock);
    DivBounds(id, fastaBlock);
    TaskShape(fastaList, fastaBlock, b);
    f := id - ToProcess(fastaList, fastaBlock)[b].start;
  }

  /** 0, 1, ..., n - 1. */
  function Range(n: nat): (r: seq<nat>)
    ensures |r| == n && forall i :: 0 <= i < n ==> r[i] == i
  {
    seq(n, i => i)
  }

  /** The order in which the pool hands back the n results: each block index
      once. */
  predicate IsPermutation(order: seq<nat>, n: nat)
  {
    multiset(order) == multiset(Range(n))
  }

  /** A permutation of 0..n - 1 has n entries, each below n, and lists every
      index below n. */
  lemma PermutationFacts(order: seq<nat>, n: nat)
    requires IsPermutation(order, n)
    ensures |order| == n
    ensures forall j :: 0 <= j < |order| ==> order[j] < n
    ensures forall b :: 0 <= b < n ==> b in order
  {
    assert |order| == |multiset(order)| == |multiset(Range(n))| == n;
    forall j | 0 <= j < |order| ensures order[j] < n {
      assert order[j] in multiset(Range(n));
    }
    forall b | 0 <= b < n ensures b in order {
      assert Range(n)[b] == b;
      assert b in multiset(order);
    }
  }

  /** The results in arrival order: the tasks picked by order. */
  function Arrival(ts: seq<Task>, order: seq<nat>): (a: seq<Task>)
    requires IsPermutation(order, |ts|)
    ensures |a| == |order|
  {
    PermutationFacts(order, |ts|);
    Pick(ts, order)
  }

  /** digest_fasta_block on one task, under fixed settings. */
  function Worker(st: Settings, md: MassTable, spectraBlock: int): (w: Task -> Result<(seq<Spectrum>, Index)>)
    requires ValidProtease(st.sites)
    ensures forall t :: w(t) == DigestFastaBlock(t.start, t.block, st, md, spectraBlock)
  {
    (t: Task) => DigestFastaBlock(t.start, t.block, st, md, spectraBlock)
  }

  /** The value of f on each element, when f succeeds on all of them. */
  function Values<A, B>(f: A -> Result<B>, xs: seq<A>): (vs: seq<B>)
    requires forall b :: 0 <= b < |xs| ==> f(xs[b]).Ok?
    ensures |vs| == |xs| && forall b :: 0 <= b < |xs| ==> f(xs[b]) == Ok(vs[b])
  {
    seq(|xs|, b requires 0 <= b < |xs| => f(xs[b]).value)
  }

  /** Applying f along an order that lists every position succeeds exactly
      when f succeeds on every element, and then gives the values picked by
      the order. */
  lemma MapAllPicked<A, B>(f: A -> Result<B>, xs: seq<A>, order: seq<nat>)
    requires forall j :: 0 <= j < |order| ==> order[j] < |xs|
    requires forall b :: 0 <= b < |xs| ==> b in order
    ensures MapAll(f, Pick(xs, order)).Ok? <==> forall b :: 0 <= b < |xs| ==> f(xs[b]).Ok?
    ensures MapAll(f, Pick(xs, order)).Ok? ==> MapAll(f, Pick(xs, order)).value == Pick(Values(f, xs), order)
  {
    var a := Pick(xs, order);
    MapAllShape(f, a);
    if MapAll(f, a).Ok? {
      forall b | 0 <= b < |xs| ensures f(xs[b]).Ok? {
        assert b in order;
        var j :| 0 <= j < |order| && order[j] == b;
        assert a[j] == xs[b];
      }
    }
  }

  /** A block result as digest_fasta_block returns it: a well-formed
      dictionary and one spectrum per key, in key order, each what spec (the
      spectrum function) gives for its peptide. */
  predicate BlockShaped(r: (seq<Spectrum>, Index), spec: string -> Result<Spectrum>)
  {
    && ValidIndex(r.1)
    && |r.0| == |r.1.keys|
    && forall i :: 0 <= i < |r.0| ==> spec(r.1.keys[i]) == Ok(r.0[i]) && r.0[i].sequence == r.1.keys[i]
  }

  /** The `_[0]` of each result: what `spectra.extend` receives. */
  function SpectraLists(rs: seq<(seq<Spectrum>, Index)>): (ss: seq<seq<Spectrum>>)
    ensures |ss| == |rs| && forall j :: 0 <= j < |rs| ==> ss[j] == rs[j].0
  {
    seq(|rs|, j requires 0 <= j < |rs| => rs[j].0)
  }

  /** The `_[1]` of each result: what `pept_dicts.append` receives. */
  function Dicts(rs: seq<(seq<Spectrum>, Index)>): (ds: seq<Index>)
    ensures |ds| == |rs| && forall j :: 0 <= j < |rs| ==> ds[j] == rs[j].1
  {
    seq(|rs|, j requires 0 <= j < |rs| => rs[j].1)
  }

  /** What follows the pool: the spectra sorted by sequence (a stable sort),
      the last spectrum of each sequence kept, and the dictionaries merged. */
  function Tail(rs: seq<(seq<Spectrum>, Index)>): Result<(seq<Spectrum>, Index)>
    requires AllValid(Dicts(rs))
  {
    var spectraSet :- Dedup(SortBy(Flatten(SpectraLists(rs)), SeqLe));
    var peptDict :- MergePeptDicts(Dicts(rs));
    Ok((spectraSet, peptDict))
  }

  /** Some block maps k. */
  predicate InSomeBlock(rs: seq<(seq<Spectrum>, Index)>, k: string)
  {
    exists j :: 0 <= j < |rs| && k in rs[j].1.vals
  }

  /** Some spectrum of ss has sequence k. */
  predicate HasSequence(ss: seq<Spectrum>, k: string)
  {
    exists i :: 0 <= i < |ss| && ss[i].sequence == k
  }

  /** Each collected spectrum comes from some block, at a position whose key
      is its sequence. */
  lemma CollectedFrom(rs: seq<(seq<Spectrum>, Index)>, spec: string -> Result<Spectrum>, m: nat)
    requires forall j :: 0 <= j < |rs| ==> BlockShaped(rs[j], spec)
    requires m < |Flatten(SpectraLists(rs))|
    ensures spec(Flatten(SpectraLists(rs))[m].sequence) == Ok(Flatten(SpectraLists(rs))[m])
    ensures InSomeBlock(rs, Flatten(SpectraLists(rs))[m].sequence)
  {
    var j, i := FlattenIndex(SpectraLists(rs), m);
    assert BlockShaped(rs[j], spec);
    assert rs[j].1.keys[i] in rs[j].1.keys;
  }

  /** Every key of every block is the sequence of a collected spectrum. */
  lemma KeyCollected(rs: seq<(seq<Spectrum>, Index)>, spec: string -> Result<Spectrum>, j: nat, k: string)
    requires forall j :: 0 <= j < |rs| ==> BlockShaped(rs[j], spec)
    requires j < |rs| && k in rs[j].1.vals
    ensures HasSequence(Flatten(SpectraLists(rs)), k)
  {
    assert BlockShaped(rs[j], spec);
    assert k in rs[j].1.keys;
    var i :| 0 <= i < |rs[j].1.keys| && rs[j].1.keys[i] == k;
    var m := FlattenPosition(SpectraLists(rs), j, i);
  }

  /** Over well-shaped block results, each collected spectrum is what spec
      gives for its sequence; a peptide is a key of some block exactly when
      some collected spectrum has it as sequence; and nothing is collected
      exactly when no block has a key. */
  lemma CollectedSpectra(rs: seq<(seq<Spectrum>, Index)>, spec: string -> Result<Spectrum>)
    requires forall j :: 0 <= j < |rs| ==> BlockShaped(rs[j], spec)
    ensures forall m :: 0 <= m < |Flatten(SpectraLists(rs))| ==>
      spec(Flatten(SpectraLists(rs))[m].sequence) == Ok(Flatten(SpectraLists(rs))[m])
    ensures forall k :: InSomeBlock(rs, k) <==> HasSequence(Flatten(SpectraLists(rs)), k)
    ensures Flatten(SpectraLists(rs)) == [] <==> forall j :: 0 <= j < |rs| ==> rs[j].1.keys == []
  {
    var all := Flatten(SpectraLists(rs));
    forall m | 0 <= m < |all| ensures spec(all[m].sequence) == Ok(all[m]) {
      CollectedFrom(rs, spec, m);
    }
    forall k ensures InSomeBlock(rs, k) <==> HasSequence(all, k) {
      if InSomeBlock(rs, k) {
        var j :| 0 <= j < |rs| && k in rs[j].1.vals;
        KeyCollected(rs, spec, j, k);
      }
      if HasSequence(all, k) {
        var m :| 0 <= m < |all| && all[m].sequence == k;
        CollectedFrom(rs, spec, m);
      }
    }
    if all != [] {
      var j, i := FlattenIndex(SpectraLists(rs), 0);
      assert BlockShaped(rs[j], spec);
    }
    if exists j :: 0 <= j < |rs| && rs[j].1.keys != [] {
      var j :| 0 <= j < |rs| && rs[j].1.keys != [];
      assert BlockShaped(rs[j], spec);
      var m := FlattenPosition(SpectraLists(rs), j, 0);
    }
  }

  /** The tail fails, with IndexError, exactly when no block has a peptide
      (the `spectra[-1]` of an empty list). */
  lemma TailOutcome(rs: seq<(seq<Spectrum>, Index)>, spec: string -> Result<Spectrum>)
    requires forall j :: 0 <= j < |rs| ==> BlockShaped(rs[j], spec)
    ensures AllValid(Dicts(rs))
    ensures Tail(rs).Err? <==> forall j :: 0 <= j < |rs| ==> rs[j].1.keys == []
    ensures Tail(rs).Err? ==> Tail(rs).error == IndexError
  {
    assert AllValid(Dicts(rs));
    CollectedSpectra(rs, spec);
    SeqLeTotalPreorder();
    SortByCorrect(Flatten(SpectraLists(rs)), SeqLe);
    DedupShape(SortBy(Flatten(SpectraLists(rs)), SeqLe));
  }

  /** The kept spectra have strictly increasing sequences and each is what
      spec gives for its sequence; the merged dictionary maps exactly the
      kept sequences, each to its ids from every block in arrival order. */
  lemma TailSpectra(rs: seq<(seq<Spectrum>, Index)>, spec: string -> Result<Spectrum>)
    requires forall j :: 0 <= j < |rs| ==> BlockShaped(rs[j], spec)
    ensures AllValid(Dicts(rs))
    ensures Tail(rs).Ok? ==> var ss, d := Tail(rs).value.0, Tail(rs).value.1;
      && (forall i, j :: 0 <= i < j < |ss| ==> LexLe(ss[i].sequence, ss[j].sequence) && ss[i].sequence != ss[j].sequence)
      && (forall i :: 0 <= i < |ss| ==> spec(ss[i].sequence) == Ok(ss[i]))
      && ValidIndex(d)
      && (forall k :: k in d.vals <==> HasSequence(ss, k))
      && (forall k :: k in d.vals ==> d.vals[k] == Collect(Dicts(rs), k))
  {
    var ds := Dicts(rs);
    assert AllValid(ds);
    if Tail(rs).Ok? {
      var all := Flatten(SpectraLists(rs));
      CollectedSpectra(rs, spec);
      SortDedup(all, spec);
      MergedSpec(ds);
      var ss, d := Tail(rs).value.0, Tail(rs).value.1;
      assert ss == Dedup(SortBy(all, SeqLe)).value;
      assert d == Merged(ds);
      forall k ensures k in d.vals <==> InSomeBlock(rs, k) {
        if InSomeBlock(rs, k) {
          var j :| 0 <= j < |rs| && k in rs[j].1.vals;
          assert k in ds[j].vals;
        }
      }
    }
  }

  /** The tail does not depend on the order in which the block results
      arrive: given the same spectra lists in any order, it fails or succeeds
      alike and keeps the same spectra, and the merged dictionaries have the
      same keys. Spectra with equal sequences are equal, so the tie order of
      the sort cannot show. */
  lemma TailOrder(r1: seq<(seq<Spectrum>, Index)>, r2: seq<(seq<Spectrum>, Index)>, spec: string -> Result<Spectrum>)
    requires forall j :: 0 <= j < |r1| ==> BlockShaped(r1[j], spec)
    requires forall j :: 0 <= j < |r2| ==> BlockShaped(r2[j], spec)
    requires multiset(SpectraLists(r1)) == multiset(SpectraLists(r2))
    ensures AllValid(Dicts(r1)) && AllValid(Dicts(r2))
    ensures Tail(r1).Ok? <==> Tail(r2).Ok?
    ensures Tail(r1).Ok? ==> Tail(r1).value.0 == Tail(r2).value.0
    ensures Tail(r1).Ok? ==> forall k :: k in Tail(r1).value.1.vals <==> k in Tail(r2).value.1.vals
  {
    var a1, a2 := Flatten(SpectraLists(r1)), Flatten(SpectraLists(r2));
    FlattenMultiset(SpectraLists(r1), SpectraLists(r2));
    assert |a1| == |multiset(a1)| == |multiset(a2)| == |a2|;
    TailOutcome(r1, spec);
    TailOutcome(r2, spec);
    CollectedSpectra(r1, spec);
    CollectedSpectra(r2, spec);
    if a1 != [] {
      SortedSame(a1, a2, spec);
      TailSpectra(r1, spec);
      TailSpectra(r2, spec);
    }
  }

  /** Sorting two lists of the same spectra, each what spec gives for its
      sequence, gives the same list. */
  lemma SortedSame(a1: seq<Spectrum>, a2: seq<Spectrum>, spec: string -> Result<Spectrum>)
    requires multiset(a1) == multiset(a2)
    requires forall m :: 0 <= m < |a1| ==> spec(a1[m].sequence) == Ok(a1[m])
    ensures SortBy(a1, SeqLe) == SortBy(a2, SeqLe)
  {
    SeqLeTotalPreorder();
    SortByCorrect(a1, SeqLe);
    SortByCorrect(a2, SeqLe);
    var s1, s2 := SortBy(a1, SeqLe), SortBy(a2, SeqLe);
    forall x, y | x in s1 && y in s1 && SeqLe(x, y) && SeqLe(y, x) ensures x == y {
      LexLeAntisymmetric(x.sequence, y.sequence);
      var n :| 0 <= n < |s1| && s1[n] == x;
      var m := SamePosition(s1, a1, n);
      var n' :| 0 <= n' < |s1| && s1[n'] == y;
      var m' := SamePosition(s1, a1, n');
    }
    assert TieFree(s1, SeqLe);
    SortedUnique(s1, s2, SeqLe);
  }

  /** Position m of a is a position of any list with the same elements. */
  lemma SamePosition<T>(a: seq<T>, b: seq<T>, m: nat) returns (n: nat)
    requires multiset(a) == multiset(b) && m < |a|
    ensures n < |b| && b[n] == a[m]
  {
    assert a[m] in multiset(b);
    n :| 0 <= n < |b| && b[n] == a[m];
  }

  /** Sorting and deduplicating spectra that are each what spec gives for
      their sequence: strictly increasing sequences, each kept spectrum again
      what spec gives, and the same set of sequences as the input. */
  lemma SortDedup(all: seq<Spectrum>, spec: string -> Result<Spectrum>)
    requires all != []
    requires forall m :: 0 <= m < |all| ==> spec(all[m].sequence) == Ok(all[m])
    ensures SortBy(all, SeqLe) != []
    ensures var ss := Dedup(SortBy(all, SeqLe)).value;
      && (forall i, j :: 0 <= i < j < |ss| ==> LexLe(ss[i].sequence, ss[j].sequence) && ss[i].sequence != ss[j].sequence)
      && (forall i :: 0 <= i < |ss| ==> spec(ss[i].sequence) == Ok(ss[i]))
      && (forall k :: HasSequence(ss, k) <==> HasSequence(all, k))
  {
    SortedNonEmpty(all);
    var sorted := SortBy(all, SeqLe);
    SortedSpectra(all);
    DedupIncreasing(sorted);
    var ss := Dedup(sorted).value;
    forall i | 0 <= i < |ss| ensures spec(ss[i].sequence) == Ok(ss[i]) && HasSequence(all, ss[i].sequence) {
      KeptFromInput(all, spec, i);
    }
    forall k | HasSequence(all, k) ensures HasSequence(ss, k) {
      InputKept(all, k);
    }
  }

  /** Sorting keeps a non-empty list non-empty, so the dedup succeeds. */
  lemma SortedNonEmpty(all: seq<Spectrum>)
    requires all != []
    ensures SortBy(all, SeqLe) != [] && Dedup(SortBy(all, SeqLe)).Ok?
  {
    SortedSpectra(all);
    DedupShape(SortBy(all, SeqLe));
  }

  /** The sort by sequence orders the spectra and permutes them. */
  lemma SortedSpectra(all: seq<Spectrum>)
    ensures SortedBy(SortBy(all, SeqLe), SeqLe)
    ensures multiset(SortBy(all, SeqLe)) == multiset(all) && |SortBy(all, SeqLe)| == |all|
  {
    SeqLeTotalPreorder();
    SortByCorrect(all, SeqLe);
  }

  /** Each kept spectrum is one of the input's. */
  lemma KeptFromInput(all: seq<Spectrum>, spec: string -> Result<Spectrum>, i: nat)
    requires all != []
    requires forall m :: 0 <= m < |all| ==> spec(all[m].sequence) == Ok(all[m])
    requires SortBy(all, SeqLe) != [] && Dedup(SortBy(all, SeqLe)).Ok? && i < |Dedup(SortBy(all, SeqLe)).value|
    ensures var x := Dedup(SortBy(all, SeqLe)).value[i]; spec(x.sequence) == Ok(x) && HasSequence(all, x.sequence)
  {
    var sorted := SortBy(all, SeqLe);
    SortedSpectra(all);
    DedupShape(sorted);
    var ss := Dedup(sorted).value;
    var n :| 0 <= n < |sorted| && sorted[n] == ss[i];
    var m := SamePosition(sorted, all, n);
  }

  /** Each sequence of the input is kept. */
  lemma InputKept(all: seq<Spectrum>, k: string)
    requires all != [] && HasSequence(all, k)
    requires SortBy(all, SeqLe) != [] && Dedup(SortBy(all, SeqLe)).Ok?
    ensures HasSequence(Dedup(SortBy(all, SeqLe)).value, k)
  {
    var sorted := SortBy(all, SeqLe);
    SortedSpectra(all);
    var m :| 0 <= m < |all| && all[m].sequence == k;
    var n := SamePosition(all, sorted, m);
    var i := DedupKeeps(sorted, n);
  }

  /** get_spectrum with the mass table fixed. */
  function SpectrumFn(md: MassTable): (spec: string -> Result<Spectrum>)
    ensures forall p :: spec(p) == SpectrumOf(p, md)
  {
    p => SpectrumOf(p, md)
  }

  /** Every result the worker returns is well shaped. */
  ghost predicate ShapedWorker(w: Task -> Result<(seq<Spectrum>, Index)>, spec: string -> Result<Spectrum>)
  {
    forall t :: w(t).Ok? ==> BlockShaped(w(t).value, spec)
  }

  /** digest_fasta_block's results are well shaped, and each holds the
      dictionary of its block's records. */
  lemma WorkerShaped(st: Settings, md: MassTable, spectraBlock: int)
    requires ValidProtease(st.sites)
    ensures ShapedWorker(Worker(st, md, spectraBlock), SpectrumFn(md))
    ensures forall t :: Worker(st, md, spectraBlock)(t).Ok? ==>
      DigestPeptides(t.start, t.block, st) == Ok(Worker(st, md, spectraBlock)(t).value.1)
  {
    var w := Worker(st, md, spectraBlock);
    forall t | w(t).Ok?
      ensures BlockShaped(w(t).value, SpectrumFn(md))
      ensures DigestPeptides(t.start, t.block, st) == Ok(w(t).value.1)
    {
      DigestFastaBlockSpectra(t.start, t.block, st, md, spectraBlock);
    }
  }

  /** Results collected from a well-shaped worker are well shaped. */
  lemma PoolShaped(w: Task -> Result<(seq<Spectrum>, Index)>, spec: string -> Result<Spectrum>,
                   tasks: seq<Task>, results: seq<(seq<Spectrum>, Index)>)
    requires ShapedWorker(w, spec) && MapAll(w, tasks) == Ok(results)
    ensures |results| == |tasks|
    ensures forall j :: 0 <= j < |results| ==> w(tasks[j]) == Ok(results[j]) && BlockShaped(results[j], spec)
    ensures AllValid(Dicts(results))
  {
    MapAllShape(w, tasks);
  }

  /** The pool and what follows it: every task's result collected in arrival
      order, then the tail. */
  function RunPool(w: Task -> Result<(seq<Spectrum>, Index)>, spec: string -> Result<Spectrum>,
                   ts: seq<Task>, order: seq<nat>): Result<(seq<Spectrum>, Index)>
    requires ShapedWorker(w, spec) && IsPermutation(order, |ts|)
  {
    var results :- MapAll(w, Arrival(ts, order));
    PoolShaped(w, spec, Arrival(ts, order), results);
    Tail(results)
  }

  /** When every task succeeds, the collected results are the tasks' results
      picked by the arrival order. */
  lemma PoolResults(w: Task -> Result<(seq<Spectrum>, Index)>, spec: string -> Result<Spectrum>,
                    ts: seq<Task>, order: seq<nat>)
    requires ShapedWorker(w, spec) && IsPermutation(order, |ts|)
    ensures forall j :: 0 <= j < |order| ==> order[j] < |ts|
    ensures forall b :: 0 <= b < |ts| ==> b in order
    ensures MapAll(w, Arrival(ts, order)).Ok? <==> forall b :: 0 <= b < |ts| ==> w(ts[b]).Ok?
    ensures MapAll(w, Arrival(ts, order)).Ok? ==>
      && MapAll(w, Arrival(ts, order)).value == Pick(Values(w, ts), order)
      && (forall b :: 0 <= b < |ts| ==> BlockShaped(Values(w, ts)[b], spec))
  {
    PermutationFacts(order, |ts|);
    MapAllPicked(w, ts, order);
  }

  /** The pool fails exactly when some task fails or no task yields a
      peptide, whatever the arrival order; when every task succeeds but none
      yields a peptide, it fails with IndexError. */
  lemma RunPoolOutcome(w: Task -> Result<(seq<Spectrum>, Index)>, spec: string -> Result<Spectrum>,
                       ts: seq<Task>, order: seq<nat>)
    requires ShapedWorker(w, spec) && IsPermutation(order, |ts|)
    ensures RunPool(w, spec, ts, order).Ok? <==>
      (forall b :: 0 <= b < |ts| ==> w(ts[b]).Ok?) && (exists b :: 0 <= b < |ts| && w(ts[b]).Ok? && w(ts[b]).value.1.keys != [])
    ensures (forall b :: 0 <= b < |ts| ==> w(ts[b]).Ok?) && RunPool(w, spec, ts, order).Err? ==>
      RunPool(w, spec, ts, order).error == IndexError
  {
    PoolResults(w, spec, ts, order);
    if forall b :: 0 <= b < |ts| ==> w(ts[b]).Ok? {
      var vs := Values(w, ts);
      var results := MapAll(w, Arrival(ts, order)).value;
      PoolShaped(w, spec, Arrival(ts, order), results);
      TailOutcome(results, spec);
      if exists b :: 0 <= b < |ts| && vs[b].1.keys != [] {
        var b :| 0 <= b < |ts| && vs[b].1.keys != [];
        assert b in order;
        var j :| 0 <= j < |order| && order[j] == b;
        assert results[j] == vs[b];
      }
      if exists j :: 0 <= j < |results| && results[j].1.keys != [] {
        var j :| 0 <= j < |results| && results[j].1.keys != [];
        assert results[j] == vs[order[j]];
      }
    }
  }

  /** What the pool yields: spectra with strictly increasing sequences, each
      what spec gives for its sequence, and a well-formed dictionary mapping
      exactly those sequences. */
  lemma RunPoolSpectra(w: Task -> Result<(seq<Spectrum>, Index)>, spec: string -> Result<Spectrum>,
                       ts: seq<Task>, order: seq<nat>)
    requires ShapedWorker(w, spec) && IsPermutation(order, |ts|)
    requires RunPool(w, spec, ts, order).Ok?
    ensures var ss, d := RunPool(w, spec, ts, order).value.0, RunPool(w, spec, ts, order).value.1;
      && (forall i, j :: 0 <= i < j < |ss| ==> LexLe(ss[i].sequence, ss[j].sequence) && ss[i].sequence != ss[j].sequence)
      && (forall i :: 0 <= i < |ss| ==> spec(ss[i].sequence) == Ok(ss[i]))
      && ValidIndex(d)
      && (forall k :: k in d.vals <==> HasSequence(ss, k))
  {
    var results := MapAll(w, Arrival(ts, order)).value;
    PoolShaped(w, spec, Arrival(ts, order), results);
    TailSpectra(results, spec);
  }

  /** The merged dictionary lists id under k exactly when some task's
      dictionary does. */
  lemma RunPoolIds(w: Task -> Result<(seq<Spectrum>, Index)>, spec: string -> Result<Spectrum>,
                   ts: seq<Task>, order: seq<nat>)
    requires ShapedWorker(w, spec) && IsPermutation(order, |ts|)
    requires RunPool(w, spec, ts, order).Ok?
    ensures forall b :: 0 <= b < |ts| ==> w(ts[b]).Ok?
    ensures var d := RunPool(w, spec, ts, order).value.1;
      forall k, id :: (k in d.vals && id in d.vals[k]) <==> ListedIn(Dicts(Values(w, ts)), k, id)
  {
    PoolResults(w, spec, ts, order);
    var vs := Values(w, ts);
    var results := MapAll(w, Arrival(ts, order)).value;
    PoolShaped(w, spec, Arrival(ts, order), results);
    var ds := Dicts(results);
    TailOutcome(results, spec);
    assert RunPool(w, spec, ts, order).value.1 == Merged(ds);
    MergedMember(ds);
    forall k, id ensures ListedIn(ds, k, id) <==> ListedIn(Dicts(vs), k, id) {
      if ListedIn(ds, k, id) {
        var j :| 0 <= j < |ds| && id in Get(ds[j], k);
        assert ds[j] == Dicts(vs)[order[j]];
      }
      if ListedIn(Dicts(vs), k, id) {
        var b :| 0 <= b < |ts| && id in Get(Dicts(vs)[b], k);
        assert b in order;
        var j :| 0 <= j < |order| && order[j] == b;
        assert ds[j] == Dicts(vs)[b];
      }
    }
  }

  /** The pool's outcome does not depend on the arrival order: it fails or
      succeeds alike, keeps the same spectra, and merges dictionaries with the
      same keys. */
  lemma RunPoolOrder(w: Task -> Result<(seq<Spectrum>, Index)>, spec: string -> Result<Spectrum>,
                     ts: seq<Task>, o1: seq<nat>, o2: seq<nat>)
    requires ShapedWorker(w, spec) && IsPermutation(o1, |ts|) && IsPermutation(o2, |ts|)
    ensures RunPool(w, spec, ts, o1).Ok? <==> RunPool(w, spec, ts, o2).Ok?
    ensures RunPool(w, spec, ts, o1).Ok? ==> RunPool(w, spec, ts, o1).value.0 == RunPool(w, spec, ts, o2).value.0
    ensures RunPool(w, spec, ts, o1).Ok? ==>
      forall k :: k in RunPool(w, spec, ts, o1).value.1.vals <==> k in RunPool(w, spec, ts, o2).value.1.vals
  {
    PoolResults(w, spec, ts, o1);
    PoolResults(w, spec, ts, o2);
    if forall b :: 0 <= b < |ts| ==> w(ts[b]).Ok? {
      var vs := Values(w, ts);
      var r1, r2 := Pick(vs, o1), Pick(vs, o2);
      PoolShaped(w, spec, Arrival(ts, o1), r1);
      PoolShaped(w, spec, Arrival(ts, o2), r2);
      var sl := SpectraLists(vs);
      PickMultiset(sl, o1, o2);
      assert SpectraLists(r1) == Pick(sl, o1);
      assert SpectraLists(r2) == Pick(sl, o2);
      TailOrder(r1, r2, spec);
    }
  }

  /** The three values generate_database_parallel returns. */
  datatype Db = Db(spectraSet: seq<Spectrum>, peptDict: Index, fastaDict: map<int, Record>)

  /** The fasta_dict of generate_fasta_list: each listed protein under its
      position. */
  function FastaDict(fastaList: seq<Record>): map<int, Record>
  {
    map i | 0 <= i < |fastaList| :: fastaList[i]
  }

  /** generate_database_parallel over the records read from the FASTA files,
      with the pool's results arriving in `order`: blocks of fasta_block
      proteins digested, the spectra sorted by sequence and deduplicated, the
      dictionaries merged. The first failure in arrival order is raised. */
  function GenerateDatabase(files: seq<seq<Record>>, aas: set<char>, st: Settings, md: MassTable,
                            fastaBlock: nat, spectraBlock: int, order: seq<nat>): Result<Db>
    requires ValidProtease(st.sites) && fastaBlock > 0
    requires IsPermutation(order, |ValidRecords(Flatten(files), aas)| / fastaBlock + 1)
  {
    var fastaList := ValidRecords(Flatten(files), aas);
    WorkerShaped(st, md, spectraBlock);
    var tail :- RunPool(Worker(st, md, spectraBlock), SpectrumFn(md), ToProcess(fastaList, fastaBlock), order);
    Ok(Db(tail.0, tail.1, FastaDict(fastaList)))
  }

  /** The database is the pool's result with the protein dictionary added,
      and fails the way the pool does. */
  lemma GenerateDatabasePool(files: seq<seq<Record>>, aas: set<char>, st: Settings, md: MassTable,
                             fastaBlock: nat, spectraBlock: int, order: seq<nat>)
    requires ValidProtease(st.sites) && fastaBlock > 0
    requires IsPermutation(order, |ValidRecords(Flatten(files), aas)| / fastaBlock + 1)
    requires ShapedWorker(Worker(st, md, spectraBlock), SpectrumFn(md))
    ensures var fastaList := ValidRecords(Flatten(files), aas);
      var p := RunPool(Worker(st, md, spectraBlock), SpectrumFn(md), ToProcess(fastaList, fastaBlock), order);
      var r := GenerateDatabase(files, aas, st, md, fastaBlock, spectraBlock, order);
      && (r.Ok? <==> p.Ok?)
      && (r.Err? ==> r.error == p.error)
      && (r.Ok? ==> r.value == Db(p.value.0, p.value.1, FastaDict(fastaList)))
  {
  }

  /** The database holds spectra with strictly increasing sequences, each the
      spectrum of its sequence; the peptide dictionary is well formed and maps
      exactly the sequences of those spectra; the protein dictionary lists the
      filtered records under their positions. */
  lemma GenerateDatabaseSpectra(files: seq<seq<Record>>, aas: set<char>, st: Settings, md: MassTable,
                                fastaBlock: nat, spectraBlock: int, order: seq<nat>)
    requires ValidProtease(st.sites) && fastaBlock > 0
    requires IsPermutation(order, |ValidRecords(Flatten(files), aas)| / fastaBlock + 1)
    requires GenerateDatabase(files, aas, st, md, fastaBlock, spectraBlock, order).Ok?
    ensures var db := GenerateDatabase(files, aas, st, md, fastaBlock, spectraBlock, order).value;
      var ss := db.spectraSet; var fastaList := ValidRecords(Flatten(files), aas);
      && (forall i, j :: 0 <= i < j < |ss| ==> LexLe(ss[i].sequence, ss[j].sequence) && ss[i].sequence != ss[j].sequence)
      && (forall i :: 0 <= i < |ss| ==> SpectrumOf(ss[i].sequence, md) == Ok(ss[i]))
      && ValidIndex(db.peptDict)
      && (forall k :: k in db.peptDict.vals <==> HasSequence(ss, k))
      && (forall i :: i in db.fastaDict <==> 0 <= i < |fastaList|)
      && (forall i :: 0 <= i < |fastaList| ==> db.fastaDict[i] == fastaList[i])
  {
    var fastaList := ValidRecords(Flatten(files), aas);
    WorkerShaped(st, md, spectraBlock);
    GenerateDatabasePool(files, aas, st, md, fastaBlock, spectraBlock, order);
    RunPoolSpectra(Worker(st, md, spectraBlock), SpectrumFn(md), ToProcess(fastaList, fastaBlock), order);
  }

  /** generate_database_parallel succeeds exactly when every block is digested
      and some block yields a peptide, whatever the arrival order; when every
      block is digested but none yields a peptide, it raises IndexError. */
  lemma GenerateDatabaseOutcome(files: seq<seq<Record>>, aas: set<char>, st: Settings, md: MassTable,
                                fastaBlock: nat, spectraBlock: int, order: seq<nat>)
    requires ValidProtease(st.sites) && fastaBlock > 0
    requires IsPermutation(order, |ValidRecords(Flatten(files), aas)| / fastaBlock + 1)
    ensures var ts := ToProcess(ValidRecords(Flatten(files), aas), fastaBlock);
      var r := GenerateDatabase(files, aas, st, md, fastaBlock, spectraBlock, order);
      && (r.Ok? <==>
            (forall b :: 0 <= b < |ts| ==> DigestFastaBlock(ts[b].start, ts[b].block, st, md, spectraBlock).Ok?) &&
            (exists b :: 0 <= b < |ts| && DigestFastaBlock(ts[b].start, ts[b].block, st, md, spectraBlock).Ok? &&
               DigestFastaBlock(ts[b].start, ts[b].block, st, md, spectraBlock).value.1.keys != []))
      && ((forall b :: 0 <= b < |ts| ==> DigestFastaBlock(ts[b].start, ts[b].block, st, md, spectraBlock).Ok?) && r.Err? ==>
            r.error == IndexError)
  {
    var ts := ToProcess(ValidRecords(Flatten(files), aas), fastaBlock);
    var w := Worker(st, md, spectraBlock);
    WorkerShaped(st, md, spectraBlock);
    GenerateDatabasePool(files, aas, st, md, fastaBlock, spectraBlock, order);
    RunPoolOutcome(w, SpectrumFn(md), ts, order);
    assert forall b :: 0 <= b < |ts| ==> w(ts[b]) == DigestFastaBlock(ts[b].start, ts[b].block, st, md, spectraBlock);
  }

  /** Record id of fastaList generates peptide k. */
  predicate GeneratedBy(fastaList: seq<Record>, st: Settings, k: string, id: int)
    requires ValidProtease(st.sites)
  {
    && 0 <= id < |fastaList|
    && GeneratedPeptides(fastaList[id].sequence, st).Ok?
    && k in GeneratedPeptides(fastaList[id].sequence, st).value
  }

  /** The per-task dictionaries of a digested split. */
  predicate DigestedDicts(ts: seq<Task>, st: Settings, ds: seq<Index>)
    requires ValidProtease(st.sites)
  {
    |ds| == |ts| && forall b :: 0 <= b < |ts| ==> DigestPeptides(ts[b].start, ts[b].block, st) == Ok(ds[b])
  }

  /** An id listed by a block's dictionary is a record of fastaList that
      generates the peptide. */
  lemma ListedGenerated(fastaList: seq<Record>, fastaBlock: nat, st: Settings, ds: seq<Index>, k: string, id: int)
    requires ValidProtease(st.sites) && fastaBlock > 0
    requires DigestedDicts(ToProcess(fastaList, fastaBlock), st, ds)
    requires ListedIn(ds, k, id)
    ensures GeneratedBy(fastaList, st, k, id)
  {
    var ts := ToProcess(fastaList, fastaBlock);
    var j :| 0 <= j < |ds| && id in Get(ds[j], k);
    assert DigestPeptides(ts[j].start, ts[j].block, st) == Ok(ds[j]);
    var f := DigestPeptidesIdOf(ts[j].start, ts[j].block, st, ds[j], k, id);
    TaskAt(fastaList, fastaBlock, j, f);
    var r := ts[j].block[f];
    assert fastaList[id] == r;
    assert GeneratedPeptides(r.sequence, st).Ok?;
    assert k in GeneratedPeptides(r.sequence, st).value;
    GeneratedByRecord(fastaList, st, k, id, r);
  }

  /** GeneratedBy depends only on the record at id. */
  lemma GeneratedByRecord(fastaList: seq<Record>, st: Settings, k: string, id: int, r: Record)
    requires ValidProtease(st.sites) && 0 <= id < |fastaList| && fastaList[id] == r
    requires GeneratedPeptides(r.sequence, st).Ok? && k in GeneratedPeptides(r.sequence, st).value
    ensures GeneratedBy(fastaList, st, k, id)
  {
  }

  /** A record of fastaList that generates a peptide is listed under it by
      its block's dictionary. */
  lemma GeneratedListed(fastaList: seq<Record>, fastaBlock: nat, st: Settings, ds: seq<Index>, k: string, id: int)
    requires ValidProtease(st.sites) && fastaBlock > 0
    requires DigestedDicts(ToProcess(fastaList, fastaBlock), st, ds)
    requires GeneratedBy(fastaList, st, k, id)
    ensures ListedIn(ds, k, id)
  {
    var ts := ToProcess(fastaList, fastaBlock);
    var b, f := TaskOf(fastaList, fastaBlock, id);
    assert DigestPeptides(ts[b].start, ts[b].block, st) == Ok(ds[b]);
    TaskListed(fastaList, st, ts[b], ds[b], f, k, id);
  }

  /** Record id, at position f of task t, is listed by the task's dictionary
      under each peptide it generates. */
  lemma TaskListed(fastaList: seq<Record>, st: Settings, t: Task, d: Index, f: nat, k: string, id: int)
    requires ValidProtease(st.sites) && DigestPeptides(t.start, t.block, st) == Ok(d)
    requires GeneratedBy(fastaList, st, k, id)
    requires f < |t.block| && t.start + f == id && t.block[f] == fastaList[id]
    ensures id in Get(d, k)
  {
    DigestPeptidesListed(t.start, t.block, st, d, f, k, id);
  }

  /** Every record of a digested split is digested. */
  lemma DigestedRecords(fastaList: seq<Record>, fastaBlock: nat, st: Settings, ds: seq<Index>)
    requires ValidProtease(st.sites) && fastaBlock > 0
    requires DigestedDicts(ToProcess(fastaList, fastaBlock), st, ds)
    ensures forall id :: 0 <= id < |fastaList| ==> GeneratedPeptides(fastaList[id].sequence, st).Ok?
  {
    var ts := ToProcess(fastaList, fastaBlock);
    forall id | 0 <= id < |fastaList| ensures GeneratedPeptides(fastaList[id].sequence, st).Ok? {
      var b, f := TaskOf(fastaList, fastaBlock, id);
      DigestPeptidesKeys(ts[b].start, ts[b].block, st);
    }
  }

  /** The peptide dictionary of the database lists protein id under peptide k
      exactly when record id of the filtered list generates k. */
  lemma GenerateDatabaseIds(files: seq<seq<Record>>, aas: set<char>, st: Settings, md: MassTable,
                            fastaBlock: nat, spectraBlock: int, order: seq<nat>)
    requires ValidProtease(st.sites) && fastaBlock > 0
    requires IsPermutation(order, |ValidRecords(Flatten(files), aas)| / fastaBlock + 1)
    requires GenerateDatabase(files, aas, st, md, fastaBlock, spectraBlock, order).Ok?
    ensures var fastaList := ValidRecords(Flatten(files), aas);
      forall id :: 0 <= id < |fastaList| ==> GeneratedPeptides(fastaList[id].sequence, st).Ok?
    ensures var d := GenerateDatabase(files, aas, st, md, fastaBlock, spectraBlock, order).value.peptDict;
      forall k, id :: (k in d.vals && id in d.vals[k]) <==> GeneratedBy(ValidRecords(Flatten(files), aas), st, k, id)
  {
    var fastaList := ValidRecords(Flatten(files), aas);
    var w := Worker(st, md, spectraBlock);
    var ts := ToProcess(fastaList, fastaBlock);
    WorkerShaped(st, md, spectraBlock);
    RunPoolIds(w, SpectrumFn(md), ts, order);
    var ds := Dicts(Values(w, ts));
    assert DigestedDicts(ts, st, ds);
    DigestedRecords(fastaList, fastaBlock, st, ds);
    var d := GenerateDatabase(files, aas, st, md, fastaBlock, spectraBlock, order).value.peptDict;
    assert d == RunPool(w, SpectrumFn(md), ts, order).value.1;
    forall k, id ensures (k in d.vals && id in d.vals[k]) <==> GeneratedBy(fastaList, st, k, id) {
      if ListedIn(ds, k, id) {
        ListedGenerated(fastaList, fastaBlock, st, ds, k, id);
      }
      if GeneratedBy(fastaList, st, k, id) {
        GeneratedListed(fastaList, fastaBlock, st, ds, k, id);
      }
    }
  }

  /** For any two orders in which blocks come back from the pool, the outcome,
      the spectra, the protein dictionary and which proteins each peptide lists
      are the same. The order of the dictionary's keys and of each peptide's
      id list does follow the arrival order. */
  lemma GenerateDatabaseOrder(files: seq<seq<Record>>, aas: set<char>, st: Settings, md: MassTable,
                              fastaBlock: nat, spectraBlock: int, o1: seq<nat>, o2: seq<nat>)
    requires ValidProtease(st.sites) && fastaBlock > 0
    requires IsPermutation(o1, |ValidRecords(Flatten(files), aas)| / fastaBlock + 1)
    requires IsPermutation(o2, |ValidRecords(Flatten(files), aas)| / fastaBlock + 1)
    ensures var r1 := GenerateDatabase(files, aas, st, md, fastaBlock, spectraBlock, o1);
      var r2 := GenerateDatabase(files, aas, st, md, fastaBlock, spectraBlock, o2);
      && (r1.Ok? <==> r2.Ok?)
      && (r1.Ok? ==> r1.value.spectraSet == r2.value.spectraSet && r1.value.fastaDict == r2.value.fastaDict)
      && (r1.Ok? ==> forall k, id :: (k in r1.value.peptDict.vals && id in r1.value.peptDict.vals[k]) <==>
                                     (k in r2.value.peptDict.vals && id in r2.value.peptDict.vals[k]))
  {
    var fastaList := ValidRecords(Flatten(files), aas);
    WorkerShaped(st, md, spectraBlock);
    RunPoolOrder(Worker(st, md, spectraBlock), SpectrumFn(md), ToProcess(fastaList, fastaBlock), o1, o2);
    if GenerateDatabase(files, aas, st, md, fastaBlock, spectraBlock, o1).Ok? {
      GenerateDatabaseIds(files, aas, st, md, fastaBlock, spectraBlock, o1);
      GenerateDatabaseIds(files, aas, st, md, fastaBlock, spectraBlock, o2);
    }
  }
}
