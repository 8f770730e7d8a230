/** `generate_peptides`: a protein sequence becomes its modified target peptides
    followed by its modified, tagged decoys. */
module Peptides {
  import opened Outcomes
  import opened Seqs
  import opened Digestion
  import opened Decoys
  import opened Modifications
  import opened Isoforms
  import opened Text
  import opened Parsing

  /** The settings generate_peptides reads. */
  datatype Settings = Settings(
    sites: Protease,
    missedCleavages: nat,
    minLength: int,
    maxLength: int,
    modsFixed: seq<string>,
    modsFixedTerminal: seq<string>,
    modsVariableTerminal: seq<string>,
    modsVariable: seq<string>,
    maxIsoforms: int,
    modsFixedTerminalProt: seq<string>,
    modsVariableTerminalProt: seq<string>,
    pseudoReverse: bool,
    alSwap: bool,
    krSwap: bool)

  /** The four modification steps applied to both targets and decoys. */
  function ModChain(peptides: seq<string>, st: Settings): Result<seq<string>>
  {
    var a :- FixedMods(peptides, st.modsFixed);
    var b :- FixedModsTerminal(a, st.modsFixedTerminal);
    var c :- VariableModsTerminal(b, st.modsVariableTerminal);
    VariableMods(c, st.modsVariable, st.maxIsoforms)
  }

  /** cleave_sequence of one protein-level variant with the settings' protease. */
  function CleaveOne(protein: string, st: Settings): seq<string>
    requires ValidProtease(st.sites)
  {
    CleaveSequence(protein, st.sites(protein), st.missedCleavages, st.minLength, st.maxLength)
  }

  /** Every protein-level variant cleaved, the peptide lists joined in order. */
  function CleaveAll(proteins: seq<string>, st: Settings): seq<string>
    requires ValidProtease(st.sites)
  {
    if proteins == [] then []
    else CleaveAll(proteins[..|proteins| - 1], st) + CleaveOne(proteins[|proteins| - 1], st)
  }

  /** The protein-level variants and their cleaved, unmodified peptides, when
      the protein-level mods succeed. */
  function CleavedVariants(protein: string, st: Settings): Result<seq<string>>
    requires ValidProtease(st.sites)
  {
    var prot :- FixedModsTerminal([protein], st.modsFixedTerminalProt);
    var prot2 :- VariableModsTerminal(prot, st.modsVariableTerminalProt);
    Ok(CleaveAll(prot2, st))
  }

  /** generate_peptides: protein-level terminal mods, cleavage, the target mods;
      the decoys are built from the cleaved, unmodified peptides, then modified
      and tagged, and follow the targets. */
  function GeneratedPeptides(protein: string, st: Settings): Result<seq<string>>
    requires ValidProtease(st.sites)
  {
    var peptides :- CleavedVariants(protein, st);
    var targets :- ModChain(peptides, st);
    var decoys :- Decoys.Decoys(peptides, st.pseudoReverse, st.alSwap, st.krSwap);
    var decoysModified :- ModChain(decoys, st);
    Ok(targets + AddDecoyTag(decoysModified))
  }

  method ModifyAll(peptides: seq<string>, st: Settings) returns (r: Result<seq<string>>)
    ensures r == ModChain(peptides, st)
  {
    var a := AddFixedMods(peptides, st.modsFixed);
    if a.Err? { return Err(a.error); }
    var b := AddFixedModsTerminal(a.value, st.modsFixedTerminal);
    if b.Err? { return Err(b.error); }
    var c := AddVariableModsTerminal(b.value, st.modsVariableTerminal);
    if c.Err? { return Err(c.error); }
    r := AddVariableMods(c.value, st.modsVariable, st.maxIsoforms);
  }

  lemma CleaveAllStep(proteins: seq<string>, i: nat, st: Settings)
    requires ValidProtease(st.sites) && i < |proteins|
    ensures CleaveAll(proteins[..i + 1], st) == CleaveAll(proteins[..i], st) + CleaveOne(proteins[i], st)
  {
    assert proteins[..i + 1][..i] == proteins[..i];
  }

  lemma CleaveAllOne(protein: string, st: Settings)
    requires ValidProtease(st.sites)
    ensures CleaveAll([protein], st) == CleaveOne(protein, st)
  {
    assert [protein][..0] == [];
  }

  /** The extend loop of generate_peptides over the protein-level variants. */
  method CleaveEach(proteins: seq<string>, st: Settings) returns (peptides: seq<string>)
    requires ValidProtease(st.sites)
    ensures peptides == CleaveAll(proteins, st)
  {
    peptides := [];
    for i := 0 to |proteins|
      invariant peptides == CleaveAll(proteins[..i], st)
    {
      var cleaved := Cleave(proteins[i], st.sites(proteins[i]), st.missedCleavages, st.minLength, st.maxLength);
      CleaveAllStep(proteins, i, st);
      peptides := peptides + cleaved;
    }
    assert proteins[..|proteins|] == proteins;
  }

  method GeneratePeptides(protein: string, st: Settings) returns (r: Result<seq<string>>)
    requires ValidProtease(st.sites)
    ensures r == GeneratedPeptides(protein, st)
  {
    var prot := AddFixedModsTerminal([protein], st.modsFixedTerminalProt);
    if prot.Err? { return Err(prot.error); }
    var prot2 := AddVariableModsTerminal(prot.value, st.modsVariableTerminalProt);
    if prot2.Err? { return Err(prot2.error); }
    var peptides := CleaveEach(prot2.value, st);
    var targets := ModifyAll(peptides, st);
    if targets.Err? { return Err(targets.error); }
    var decoys := Decoys.Decoys(peptides, st.pseudoReverse, st.alSwap, st.krSwap);
    if decoys.Err? { return Err(decoys.error); }
    var decoysModified := ModifyAll(decoys.value, st);
    if decoysModified.Err? { return Err(decoysModified.error); }
    return Ok(targets.value + AddDecoyTag(decoysModified.value));
  }

  /** Settings without any modification. */
  predicate Unmodified(st: Settings)
  {
    st.modsFixed == [] && st.modsFixedTerminal == [] && st.modsVariableTerminal == [] &&
    st.modsVariable == [] && st.modsFixedTerminalProt == [] && st.modsVariableTerminalProt == []
  }

  /** Without modifications, generate_peptides returns the cleaved peptides
      followed by their decoys, each tagged; every target is a piece of the
      protein within the length bounds, and each decoy is one of a target. */
  lemma GeneratedUnmodified(protein: string, st: Settings)
    requires ValidProtease(st.sites) && Unmodified(st)
    requires GeneratedPeptides(protein, st).Ok?
    ensures var targets := CleaveSequence(protein, st.sites(protein), st.missedCleavages, st.minLength, st.maxLength);
      var r := GeneratedPeptides(protein, st).value;
      && Decoys.Decoys(targets, st.pseudoReverse, st.alSwap, st.krSwap).Ok?
      && r == targets + AddDecoyTag(Decoys.Decoys(targets, st.pseudoReverse, st.alSwap, st.krSwap).value)
      && (forall p :: p in targets ==> IsSubstring(p, protein) && st.minLength <= |p| <= st.maxLength)
  {
    var targets := CleaveSequence(protein, st.sites(protein), st.missedCleavages, st.minLength, st.maxLength);
    CleaveAllOne(protein, st);
    CleaveSequenceSound(protein, st.sites(protein), st.missedCleavages, st.minLength, st.maxLength);
  }

  /** Mod names free of upper-case letters: the name before a fixed or
      variable mod's residue, and the name of a terminal mod. */
  ghost predicate LowerCaseMods(st: Settings)
  {
    && (forall m :: m in st.modsFixed ==> m != [] && Residues(m[..|m| - 1]) == [])
    && (forall m :: m in st.modsFixedTerminal ==> Residues(ModName(m)) == [])
    && (forall m :: m in st.modsVariableTerminal ==> Residues(ModName(m)) == [])
    && (forall m :: m in st.modsVariable ==> m != [] && Residues(m[..|m| - 1]) == [])
  }

  /** With such names, every modified peptide has the residue letters of one of
      the peptides it was made from. */
  lemma ModChainResidues(peptides: seq<string>, st: Settings)
    requires LowerCaseMods(st) && ModChain(peptides, st).Ok?
    ensures ResiduesFrom(ModChain(peptides, st).value, peptides)
  {
    FixedModsResidues(peptides, st.modsFixed);
    var a := FixedMods(peptides, st.modsFixed).value;
    ResiduesFromPointwise(a, peptides);
    var b := FixedModsTerminal(a, st.modsFixedTerminal).value;
    FixedModsTerminalPreserves(a, st.modsFixedTerminal);
    ResiduesFromPointwise(b, a);
    var c := VariableModsTerminal(b, st.modsVariableTerminal).value;
    VariableModsTerminalResidues(b, st.modsVariableTerminal);
    VariableModsResidues(c, st.modsVariable, st.maxIsoforms);
    var d := ModChain(peptides, st).value;
    ResiduesFromTrans(d, c, b);
    ResiduesFromTrans(d, b, a);
    ResiduesFromTrans(d, a, peptides);
  }

  /** Without fixed mods and with max_isoforms at least 1, every peptide
      survives the modification steps unmodified. */
  lemma ModChainKeeps(peptides: seq<string>, st: Settings)
    requires st.modsFixed == [] && st.modsFixedTerminal == [] && st.maxIsoforms >= 1
    requires ModChain(peptides, st).Ok?
    ensures forall p :: p in peptides ==> p in ModChain(peptides, st).value
  {
    var c := VariableModsTerminal(peptides, st.modsVariableTerminal).value;
    if st.modsVariableTerminal != [] {
      VariableModsTerminalKeeps(peptides, st.modsVariableTerminal);
    }
    VariableModsKeeps(c, st.modsVariable, st.maxIsoforms);
  }

  /** The successful result, split into its modified targets and its tagged
      modified decoys. */
  lemma GeneratedSplit(protein: string, st: Settings)
    requires ValidProtease(st.sites) && GeneratedPeptides(protein, st).Ok?
    ensures CleavedVariants(protein, st).Ok?
    ensures var peptides := CleavedVariants(protein, st).value;
      && ModChain(peptides, st).Ok?
      && Decoys.Decoys(peptides, st.pseudoReverse, st.alSwap, st.krSwap).Ok?
      && ModChain(Decoys.Decoys(peptides, st.pseudoReverse, st.alSwap, st.krSwap).value, st).Ok?
      && GeneratedPeptides(protein, st).value == ModChain(peptides, st).value
           + AddDecoyTag(ModChain(Decoys.Decoys(peptides, st.pseudoReverse, st.alSwap, st.krSwap).value, st).value)
  {
  }

  /** Strings kept by both halves appear in the joined list. */
  lemma JoinedKeeps(targets: seq<string>, dm: seq<string>, peptides: seq<string>, decoys: seq<string>)
    requires forall p :: p in peptides ==> p in targets
    requires forall p :: p in decoys ==> p in dm
    ensures forall p :: p in peptides ==> p in targets + AddDecoyTag(dm)
    ensures forall i :: 0 <= i < |decoys| ==> decoys[i] + DecoyTag in targets + AddDecoyTag(dm)
  {
    var r := targets + AddDecoyTag(dm);
    forall i | 0 <= i < |decoys| ensures decoys[i] + DecoyTag in r {
      assert decoys[i] in decoys;
      var j :| 0 <= j < |dm| && dm[j] == decoys[i];
      assert r[|targets| + j] == AddDecoyTag(dm)[j];
    }
  }

  /** With mod names free of upper-case letters, every target generate_peptides
      returns (the entries before the decoys) has the residue letters of a
      cleaved peptide: modifying changes no amino acid. */
  lemma GeneratedTargetResidues(protein: string, st: Settings)
    requires ValidProtease(st.sites) && LowerCaseMods(st) && GeneratedPeptides(protein, st).Ok?
    ensures CleavedVariants(protein, st).Ok? && ModChain(CleavedVariants(protein, st).value, st).Ok?
    ensures var peptides := CleavedVariants(protein, st).value;
      var r := GeneratedPeptides(protein, st).value;
      && |ModChain(peptides, st).value| <= |r|
      && ResiduesFrom(r[..|ModChain(peptides, st).value|], peptides)
  {
    GeneratedSplit(protein, st);
    var peptides := CleavedVariants(protein, st).value;
    var targets := ModChain(peptides, st).value;
    var dm := ModChain(Decoys.Decoys(peptides, st.pseudoReverse, st.alSwap, st.krSwap).value, st).value;
    var r := GeneratedPeptides(protein, st).value;
    assert r[..|targets|] == targets;
    ModChainResidues(peptides, st);
  }

  /** Without fixed mods and with max_isoforms at least 1, every cleaved
      peptide is among the targets and its tagged decoy among the decoys. */
  lemma GeneratedKeeps(protein: string, st: Settings)
    requires ValidProtease(st.sites) && GeneratedPeptides(protein, st).Ok?
    requires st.modsFixed == [] && st.modsFixedTerminal == [] && st.maxIsoforms >= 1
    ensures CleavedVariants(protein, st).Ok?
    ensures var peptides := CleavedVariants(protein, st).value;
      var decoys := Decoys.Decoys(peptides, st.pseudoReverse, st.alSwap, st.krSwap);
      var r := GeneratedPeptides(protein, st).value;
      && decoys.Ok? && |decoys.value| == |peptides|
      && (forall p :: p in peptides ==> p in r)
      && (forall i :: 0 <= i < |peptides| ==> decoys.value[i] + DecoyTag in r)
  {
    GeneratedSplit(protein, st);
    var peptides := CleavedVariants(protein, st).value;
    var decoys := Decoys.Decoys(peptides, st.pseudoReverse, st.alSwap, st.krSwap).value;
    ModChainKeeps(peptides, st);
    ModChainKeeps(decoys, st);
    JoinedKeeps(ModChain(peptides, st).value, ModChain(decoys, st).value, peptides, decoys);
  }

  /** Past the first n entries, r holds one entry per dm, and each parses like
      its dm counterpart when that has no '_'. */
  ghost predicate DecoyHalfTokens(r: seq<string>, n: nat, dm: seq<string>)
  {
    |r| == n + |dm| &&
    forall i :: 0 <= i < |dm| && '_' !in dm[i] ==> Tokenize(r[n + i]) == Tokenize(dm[i])
  }

  /** Each decoy entry (the entries after the targets) parses like its untagged
      modified decoy when that has no '_': the tag is invisible to parse. */
  lemma GeneratedDecoyTokens(protein: string, st: Settings)
    requires ValidProtease(st.sites) && GeneratedPeptides(protein, st).Ok?
    ensures CleavedVariants(protein, st).Ok?
    ensures var peptides := CleavedVariants(protein, st).value;
      var decoys := Decoys.Decoys(peptides, st.pseudoReverse, st.alSwap, st.krSwap);
      && ModChain(peptides, st).Ok? && decoys.Ok? && ModChain(decoys.value, st).Ok?
      && DecoyHalfTokens(GeneratedPeptides(protein, st).value, |ModChain(peptides, st).value|,
                         ModChain(decoys.value, st).value)
  {
    GeneratedSplit(protein, st);
    var peptides := CleavedVariants(protein, st).value;
    var targets := ModChain(peptides, st).value;
    var dm := ModChain(Decoys.Decoys(peptides, st.pseudoReverse, st.alSwap, st.krSwap).value, st).value;
    assert GeneratedPeptides(protein, st).value == targets + AddDecoyTag(dm);
    JoinedTokens(targets, dm);
  }

  /** Past the targets, the joined list parses like the untagged decoys. */
  lemma JoinedTokens(targets: seq<string>, dm: seq<string>)
    ensures DecoyHalfTokens(targets + AddDecoyTag(dm), |targets|, dm)
  {
    var r := targets + AddDecoyTag(dm);
    forall i | 0 <= i < |dm| && '_' !in dm[i] ensures Tokenize(r[|targets| + i]) == Tokenize(dm[i]) {
      assert r[|targets| + i] == AddDecoyTag(dm)[i];
      AddDecoyTagTokens(dm, i);
    }
  }
}
