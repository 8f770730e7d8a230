# alphapept peptide library builder, modelled in Dafny

This project models the part of alphapept that turns protein sequences into a
searchable peptide library. The pipeline it models works like this:

- Proteins are read as records and filtered to those whose sequence uses only
  known amino acids.
- Each protein gets protein-terminal modifications, is cut by a protease at its
  cleavage sites, and gains missed-cleavage peptides.
- The peptides then get fixed, terminal and variable modifications, and each
  one gets a reversed (or pseudo-reversed) decoy.
- The peptides of each block of proteins are indexed by peptide sequence,
  mapping each peptide to the ids of the proteins it came from.
- Every new peptide gets a theoretical spectrum: its precursor mass and its b-
  and y-ion fragment masses, sorted by mass.
- A pool of workers digests the blocks. Their spectra are sorted by sequence
  and deduplicated, and their dictionaries are merged.
- The dictionary is stored as a compressed table (peptides, pointer array,
  protein ids) and read back.

The GUI helper `escape_markdown` is modelled too.

The model is split into one module per stage:

- `Digestion`: `cleave_sequence`, `get_missed_cleavages`, `count_missed_cleavages`, `count_internal_cleavages`.
- `Parsing`: `parse`.
- `Decoys`: `get_decoy_sequence`, `swap_AL`, `swap_KR`, `get_decoys`, `add_decoy_tag`.
- `Modifications`: `add_fixed_mods`, `add_fixed_mod_terminal`, `add_fixed_mods_terminal`, `add_variable_mods_terminal`.
- `Isoforms`: `get_mod_pos`, `get_isoforms`, `add_variable_mods`.
- `Peptides`: `generate_peptides`.
- `Masses`: `get_precmass`, `get_fragmass`, `get_frag_dict`.
- `Spectra`: `get_spectrum`, `get_spectra`, `generate_spectra`.
- `PeptIndex`: `add_to_pept_dict`, `merge_pept_dicts`.
- `Database`: `check_sequence`, `generate_fasta_list`, `block_idx`, `blocks`, `digest_fasta_block`, the deduplication.
- `Pipeline`: `generate_database_parallel`.
- `Csr` and `Store`: the dictionary table of `save_database`/`read_database` and the precursor table of `save_database`.
- `Markdown`: `escape_markdown`.
- `Outcomes`, `Seqs`, `Text` and `Sorting` are shared helpers:
  - the result type for raised exceptions;
  - Python slicing, `list(set(...))` and reversal;
  - `str.replace`, an ASCII-only `isupper` and `str(n)`;
  - a stable sort that stands for `sorted` and `np.argsort`.

## How the model is built

Code that works step by step is modelled as a method. The method's
postcondition ties it to a specification function, and lemmas prove what the
source promises about that function. This covers:

- the append loops (`get_missed_cleavages`, `parse`, `get_isoforms`, `get_mod_pos`);
- the in-place list swaps of `swap_AL` and `swap_KR`, on an `array<string>`;
- the accumulator loops of `get_precmass`, `get_fragmass` and `get_frag_dict`;
- the while loop of `block_idx`;
- the per-record loop of `digest_fasta_block`;
- the per-character loop of `escape_markdown`.

The peptide dictionary that `add_to_pept_dict` and `merge_pept_dicts` update in
place is a class `PeptIndex.PeptDict`. Its fields are the keys in insertion
order and the map from peptide to protein ids.

Comprehensions and compositions are functions: `cleave_sequence`,
`add_fixed_mod_terminal`, `blocks`, the deduplication comprehension and the
table decoding.

Exceptions are results: `Outcomes.Result` with `Ok` or `Err`. The error kinds
are `IndexError`, `KeyError`, `ValueError`, and `InvalidTerminalMod` for the
raise in `add_fixed_mod_terminal`. Error cases are therefore part of the
contracts rather than preconditions. Examples:

- indexing an empty token list;
- a token missing from the mass table;
- `merge_pept_dicts([])`;
- `generate_spectra` with nothing to add;
- `np.concatenate` of no lists.

Two things the model does not compute itself become parameters:

- **The protease** is a function from a sequence to its `finditer` match
  starts. The only assumption is that the starts are strictly increasing and
  inside the sequence. That holds for patterns whose every match consumes at
  least one character; a pattern that can match the empty string also yields
  the start `len(s)`, which the model excludes.
- **The mass table** is a `map<string, real>`.

## Where the code differs from its description

Each of these is modelled as the code does it:

- `get_missed_cleavages` (alphapept/fasta.py:21-22) slices
  `sequences[k-1:k+n]`. Its first entry is therefore the empty string, and the
  window of n+1 fragments that ends on the last fragment is never produced.
  `Digestion.MissedCleavages` states exactly this.
- `parse` (alphapept/fasta.py:100-104) attaches the lowercase characters in
  front of an uppercase residue to that residue, and drops lowercase characters
  after the last residue.
- `add_variable_mods_terminal` (alphapept/fasta.py:301) makes `new_peptides_c`
  an alias of `new_peptides_n`. A later C-terminal key is therefore applied to
  the peptides the earlier C-terminal keys already produced.
  `Modifications.CTermVariants` models this. Keys with neither `<` nor `>` are
  skipped there. `add_fixed_mod_terminal` raises on the same keys.
- The raise in `add_fixed_mod_terminal` (alphapept/fasta.py:270) formats an
  undefined name. It fails with some exception, which the model reports as
  `InvalidTerminalMod`.
- The protein ids are contiguous over the valid records
  (alphapept/fasta.py:565-568).
- The compressed table keeps the dictionary's insertion order; it is not
  sorted (alphapept/fasta.py:787).
- The deduplication keeps the last spectrum of each run of equal sequences
  (alphapept/fasta.py:713-714).

## Model

| member | source | states |
|---|---|---|
| `Markdown.EscapeMarkdown` | alphapept/gui/utils.py:21-24 | the loop of one `replace` per special character returns the text with each of the 15 special characters preceded by one backslash and every other character copied, in order |
| `Markdown.EscapeStep` | alphapept/gui/utils.py:21-23 | replacing a character not yet handled escapes it and leaves earlier escapes intact, provided a backslash is replaced only before anything else, which is why backslash comes first |
| `Markdown.EscapedLength` | alphapept/gui/utils.py:22-24 | output length is input length plus the number of special characters |
| `Markdown.EscapedPlain` | alphapept/gui/utils.py:22-24 | a text without special characters, the empty text included, is returned unchanged |
| `Markdown.UnescapeEscaped` | alphapept/gui/utils.py:22-23 | deleting the backslash before each escaped special character recovers the input |
| `Digestion.CutPositions` | alphapept/fasta.py:44-46 | the cut positions are 0, each match start plus one, then the length: non-decreasing, bounded by the length, two more than the matches |
| `Digestion.FragmentsWindow` | alphapept/fasta.py:48 | any run of consecutive base fragments joins to the substring between its outer cuts |
| `Digestion.BaseFragmentsJoin` | alphapept/fasta.py:44-48 | there is one more base fragment than there are matches, and the fragments concatenate back to the protein |
| `Digestion.GetMissedCleavages` | alphapept/fasta.py:16-24 | returns max(0, len(base)-n) strings: the first empty, the k-th the join of fragments k-1 to k+n-1 |
| `Digestion.LengthFilter` | alphapept/fasta.py:55 | keeps exactly the peptides whose length is within [min_length, max_length] |
| `Digestion.Cleave` | alphapept/fasta.py:27-57 | the base fragments, then the missed-cleavage joins for 1 to num_missed_cleavages, then the length filter |
| `Digestion.AllMissedSubstrings` | alphapept/fasta.py:52-53 | every missed-cleavage peptide is a substring of the protein |
| `Digestion.CleaveSequenceSound` | alphapept/fasta.py:44-57 | every returned peptide is a substring of the protein with length within the bounds |
| `Digestion.CleaveSequenceNoMissed` | alphapept/fasta.py:48-55 | with no missed cleavages the result is the length-filtered base fragments in order |
| `Digestion.CountMissedCleavages` | alphapept/fasta.py:63-71 | the count of protease matches is one less than the number of base fragments |
| `Digestion.CountInternalCleavages` | alphapept/fasta.py:73-84 | raises IndexError exactly on the empty sequence, otherwise 0 when the protease matches the last residue followed by `_` and 1 when it does not |
| `Parsing.Parse` | alphapept/fasta.py:91-106 | the loop that accumulates characters and emits on each uppercase one returns the tokenisation of the text before the first `_` |
| `Parsing.TokenizeShape` | alphapept/fasta.py:95-104 | one token per uppercase character. Each token is lowercase characters followed by one uppercase residue, without `_`. The tokens followed by the dropped trailing characters spell the text before `_` |
| `Parsing.TokensFromSpell` | alphapept/fasta.py:100-104 | the emitted tokens followed by the pending characters spell the consumed input |
| `Parsing.TokenizeWhole` | alphapept/fasta.py:100-104 | a `_`-free peptide ending on a residue is spelled by its tokens |
| `Parsing.TokenizeFlatten` | alphapept/fasta.py:95-104 | parsing the concatenation of well-formed tokens returns those tokens |
| `Parsing.BeforeUnderscoreTagged` | alphapept/fasta.py:95-96 | the split at `_` of p + "_" + tag is p for a `_`-free p |
| `Parsing.TokenizeTagged` | alphapept/fasta.py:95-104 | parse(p + "_" + tag) == parse(p) for a `_`-free p |
| `Decoys.SwapAL` | alphapept/fasta.py:154-177 | the in-place while loop leaves the array equal to the A/L swap of its old contents |
| `Decoys.SwappedALPermutes` | alphapept/fasta.py:159-169 | the A/L swap keeps the length and the multiset of tokens |
| `Decoys.SwappedALLocal` | alphapept/fasta.py:159-169 | every token ends up in its own place or one place away |
| `Decoys.SwappedALNoSwap` | alphapept/fasta.py:161-168 | without an A or L token nothing changes |
| `Decoys.SwapKR` | alphapept/fasta.py:141-151 | fails exactly on the empty list; otherwise the array becomes the K/R swap of its old contents |
| `Decoys.SwappedKRProperties` | alphapept/fasta.py:146-149 | only the last token can change, and it changes exactly when it is "K" or "R"; applying the swap twice is the identity |
| `Decoys.GetDecoySequence` | alphapept/fasta.py:117-138 | parse, (pseudo-)reverse, optional A/L and K/R swaps, join; IndexError where `pep[-1]` meets an empty token list |
| `Decoys.DecoySequenceTokens` | alphapept/fasta.py:123-136 | parsing a decoy gives back the transformed token list |
| `Decoys.DecoyTokensElems` | alphapept/fasta.py:123-134 | a decoy only holds tokens of the peptide, plus K or R from the swap |
| `Decoys.PseudoReverseTwice` | alphapept/fasta.py:124-126 | pseudo-reversal reverses all but the last token and is its own inverse |
| `Decoys.PseudoReverseSwappedKR` | alphapept/fasta.py:124-134 | pseudo-reversal and the K/R swap commute |
| `Decoys.DecoyInvolution` | alphapept/fasta.py:118-138 | for a `_`-free peptide ending on a residue, the decoy of the decoy is the peptide, with or without pseudo-reversal and K/R swap |
| `Decoys.TokenizeUpper` | alphapept/fasta.py:91-106 | a peptide of upper-case residues only parses to one single-letter token per residue |
| `Decoys.DecoyUpper` | alphapept/fasta.py:118-138 | for such a peptide, the pseudo-reversed decoy reverses all residues but the last, which stays ("ABCDEK" gives "EDCBAK"); the plain reversal reverses all; an empty peptide raises IndexError under pseudo-reversal |
| `Decoys.Decoys` | alphapept/fasta.py:179-185 | one decoy per peptide, in order, each the decoy sequence of its peptide |
| `Decoys.AddDecoyTagTokens` | alphapept/fasta.py:187-191 | the `_decoy` tag does not change what a `_`-free peptide parses to |
| `Modifications.AddFixedMods` | alphapept/fasta.py:194-203 | the loop of `replace(mod[-1], mod)` over the fixed mods; IndexError for an empty mod string when there are sequences |
| `Modifications.FixedModsShape` | alphapept/fasta.py:198-203 | fails exactly when there are sequences and an empty mod; otherwise one output per sequence |
| `Modifications.FixedModsErrSticks` | alphapept/fasta.py:201-202 | once a mod fails, the later mods do not change the outcome |
| `Modifications.FixedModsResidues` | alphapept/fasta.py:201-202 | with lowercase mod names, every sequence keeps its residues |
| `Modifications.TerminalModShape` | alphapept/fasta.py:255-271 | raises exactly for a key with neither `<` nor `>`; otherwise keeps the list length, succeeds on non-empty peptides and keeps them non-empty |
| `Modifications.TerminalModSpecific` | alphapept/fasta.py:264-267 | a residue-specific key alters only the first (`<`) or last (`>`) residue, and only when it is the key's residue |
| `Modifications.TerminalModResidues` | alphapept/fasta.py:260-267 | with a lowercase name a terminal mod keeps every peptide's residues |
| `Modifications.NTermModToken` | alphapept/fasta.py:260-261 | a prepended `<^` name joins the first token |
| `Modifications.CTermModToken` | alphapept/fasta.py:262-263 | a `>^` name inserted before the last residue joins the last token |
| `Modifications.AddFixedModsTerminal` | alphapept/fasta.py:273-283 | applies each terminal key in turn and stops at the first failing one |
| `Modifications.FixedModsTerminalErrSticks` | alphapept/fasta.py:281-282 | once a key fails, the later keys do not change the outcome |
| `Modifications.FixedModsTerminalPreserves` | alphapept/fasta.py:281-282 | with lowercase names the list length and every peptide's residues are kept |
| `Modifications.AddVariableModsTerminal` | alphapept/fasta.py:286-309 | the N-terminal variants of the input are made unique. Each C-terminal key then extends the growing list, applied to that list itself (the alias), and the result is made unique |
| `Modifications.NTermErrSticks` | alphapept/fasta.py:293-298 | an N-terminal key that fails decides the outcome |
| `Modifications.CTermErrSticks` | alphapept/fasta.py:302-307 | a C-terminal key that fails decides the outcome |
| `Modifications.NTermKeeps` | alphapept/fasta.py:291-298 | the N-terminal phase keeps every input peptide, and without `<` keys returns the input |
| `Modifications.CTermKeeps` | alphapept/fasta.py:301-307 | the C-terminal phase keeps every peptide it starts from, and without `>` keys returns its start |
| `Modifications.VariableModsTerminalKeeps` | alphapept/fasta.py:286-309 | the result has no duplicates and holds every input peptide; without terminal markers it holds exactly the input peptides |
| `Modifications.NTermTotal` | alphapept/fasta.py:293-298 | on non-empty peptides the N-terminal phase succeeds and yields non-empty peptides |
| `Modifications.CTermTotal` | alphapept/fasta.py:302-307 | on non-empty peptides the C-terminal phase succeeds and yields non-empty peptides |
| `Modifications.NTermResidues` | alphapept/fasta.py:293-298 | with lowercase names every N-terminal variant has the residues of an input peptide |
| `Modifications.CTermResidues` | alphapept/fasta.py:302-307 | with lowercase names every C-terminal variant has the residues of a peptide it started from |
| `Modifications.VariableModsTerminalResidues` | alphapept/fasta.py:286-309 | with lowercase names every output peptide has the residues of an input peptide |
| `Modifications.VariableModsTerminalTotal` | alphapept/fasta.py:286-309 | on non-empty peptides the variable terminal step never raises |
| `Seqs.Unique` | alphapept/fasta.py:311-312 | `list(set(s))` has no duplicates and exactly the elements of s |
| `Isoforms.BuildModTable` | alphapept/fasta.py:247-249 | the dictionary loop keyed by each mod's last character |
| `Isoforms.ModTableOk` | alphapept/fasta.py:248-249 | the table raises exactly when some mod string is empty |
| `Isoforms.ModTableErrSticks` | alphapept/fasta.py:248-249 | after a failing mod the outcome is fixed |
| `Isoforms.ModTableKeys` | alphapept/fasta.py:247-249 | the keys are exactly the residues of the mods |
| `Isoforms.ModTableLaterWins` | alphapept/fasta.py:248-249 | a residue maps to the last mod for it |
| `Isoforms.GetModPos` | alphapept/fasta.py:206-217 | one option tuple per character: the character, plus its mod when the table has one |
| `Isoforms.ProductCount` | alphapept/fasta.py:227-230 | the product has 2^k combinations for k modifiable characters |
| `Isoforms.ProductFirst` | alphapept/fasta.py:227-233 | the first combination is the unmodified sequence |
| `Isoforms.ProductResidues` | alphapept/fasta.py:230-233 | when each mod keeps its residue, every combination has the sequence's residues |
| `Isoforms.GetIsoforms` | alphapept/fasta.py:222-238 | the counter-and-break loop returns the first max_isoforms combinations in product order |
| `Isoforms.IsoformsShape` | alphapept/fasta.py:222-238 | returns min(max_isoforms, 2^k) isoforms, the original sequence first |
| `Isoforms.AddVariableMods` | alphapept/fasta.py:243-252 | returns the input for no mods, else the isoforms of each peptide chained in order |
| `Isoforms.VariableModsKeeps` | alphapept/fasta.py:243-252 | with max_isoforms at least 1, every input peptide is kept |
| `Isoforms.ModTableResidues` | alphapept/fasta.py:247-249 | with lowercase mod names, each residue's mod has just that residue |
| `Isoforms.VariableModsResidues` | alphapept/fasta.py:243-252 | with lowercase mod names every isoform has the residues of an input peptide |
| `Peptides.ModifyAll` | alphapept/fasta.py:326-329 | fixed, fixed terminal, variable terminal and variable mods applied in that order |
| `Peptides.CleaveEach` | alphapept/fasta.py:322-323 | the cleavage products of the modified proteins, concatenated in order |
| `Peptides.GeneratePeptides` | alphapept/fasta.py:315-343 | protein-terminal mods, cleavage, modified targets, then tagged modified decoys of the unmodified cleaved peptides |
| `Peptides.GeneratedUnmodified` | alphapept/fasta.py:315-343 | with no mods the result is the cleaved peptides followed by their tagged decoys, all targets substrings within the length bounds |
| `Peptides.ModChainResidues` | alphapept/fasta.py:326-329 | with lowercase mod names every modified peptide has the residues of an input peptide |
| `Peptides.ModChainKeeps` | alphapept/fasta.py:326-329 | without fixed mods and with max_isoforms at least 1, every input peptide survives the four steps |
| `Peptides.GeneratedTargetResidues` | alphapept/fasta.py:319-329 | with lowercase mod names, every target entry (those before the decoys) has the residues of a cleaved peptide |
| `Peptides.GeneratedKeeps` | alphapept/fasta.py:319-343 | without fixed mods and with max_isoforms at least 1, every cleaved peptide is among the results, and so is each of its decoys followed by `_decoy` |
| `Peptides.GeneratedDecoyTokens` | alphapept/fasta.py:331-343 | after the targets there is one entry per modified decoy, and each parses like that decoy when it has no `_` |
| `Masses.GetPrecMass` | alphapept/fasta.py:350-359 | the accumulator loop returns H2O plus the sum of the token masses, KeyError for a missing entry |
| `Masses.FragMassOutcome` | alphapept/fasta.py:368-390 | ValueError exactly for no tokens, KeyError exactly for a missing mass; otherwise 2(n-1) entries, n-1 of type 0 then n-1 of type 1 |
| `Masses.FragMassComplement` | alphapept/fasta.py:373-388 | b ion i plus y ion n-i is 2·Proton + H2O + the mass of all tokens |
| `Masses.FragMassIncreasing` | alphapept/fasta.py:376-388 | with positive token masses the b series and the y series each strictly increase |
| `Masses.FillBIons` | alphapept/fasta.py:373-380 | fills the first n-1 slots with b_i = Proton + the first i token masses, type 0 |
| `Masses.FillYIons` | alphapept/fasta.py:382-388 | fills the last n-1 slots with y_i = Proton + H2O + the last i token masses, type 1, leaving the b half alone |
| `Masses.GetFragMass` | alphapept/fasta.py:363-390 | the two accumulator loops over numpy arrays give the fragment masses and types |
| `Masses.IonNameInjective` | alphapept/fasta.py:409 | different ion letters or numbers give different names "b1", "y2" and so on |
| `Masses.IonMapLookup` | alphapept/fasta.py:405-417 | ion k of a series is stored under its name, and only those names are keys |
| `Masses.BIonDict` | alphapept/fasta.py:401-409 | the b loop fills "b1".."b(n-1)" with the b series |
| `Masses.YIonDict` | alphapept/fasta.py:411-417 | the y loop fills "y1".."y(n-1)" with the y series |
| `Masses.GetFragDict` | alphapept/fasta.py:393-419 | the dictionary form of the fragment masses |
| `Masses.FragDictAgrees` | alphapept/fasta.py:393-419 | for a non-empty peptide the dictionary succeeds exactly when get_fragmass does, and names its b and y masses |
| `Spectra.SortProjections` | alphapept/fasta.py:427-429 | sorting by mass rearranges the masses and the types alike |
| `Spectra.SpectrumOutcome` | alphapept/fasta.py:422-433 | ValueError exactly for no tokens, success exactly when every needed mass is known |
| `Spectra.SpectrumShape` | alphapept/fasta.py:422-433 | keeps the peptide, precursor is H2O plus the token masses, masses ascend, and the (mass, type) pairs are a permutation of get_fragmass's |
| `Spectra.GetSpectrum` | alphapept/fasta.py:422-433 | parse, fragment masses, argsort, precursor mass |
| `Spectra.SpectraShape` | alphapept/fasta.py:435-442 | one spectrum per peptide in order, or the first peptide's error |
| `Spectra.GetSpectra` | alphapept/fasta.py:435-442 | the append loop computes get_spectra |
| `Spectra.GenerateSpectraOutcome` | alphapept/fasta.py:611-633 | ValueError for nothing to add; otherwise one spectrum per peptide, in order |
| `Spectra.StepSize` | alphapept/fasta.py:621 | the chunk size is the ceiling of len/1000 |
| `Spectra.SpectraInChunks` | alphapept/fasta.py:618-626 | computing the spectra chunk by chunk gives the same list as in one go |
| `Spectra.BuildSpectra` | alphapept/fasta.py:611-633 | with or without the progress callback the result is generate_spectra's |
| `PeptIndex.PeptDict.constructor` | alphapept/fasta.py:673 | a new dictionary is empty |
| `PeptIndex.PeptDict.AddPeptides` | alphapept/fasta.py:505-517 | the dictionary is updated in place and the returned peptides are the newly added ones |
| `PeptIndex.AddAllKeys` | alphapept/fasta.py:509-516 | the dictionary stays well formed, its keys grow by exactly the added peptides, and it maps the old keys and the listed peptides |
| `PeptIndex.AddAllAdded` | alphapept/fasta.py:509-516 | the added peptides are the previously absent ones, once each in first-occurrence order |
| `PeptIndex.AddAllVals` | alphapept/fasta.py:510-514 | each peptide's list gains the id once per occurrence in the input |
| `PeptIndex.PeptDict.AppendIds` | alphapept/fasta.py:532-533 | appends ids to one existing key's list, keys unchanged |
| `PeptIndex.PeptDict.MergeFrom` | alphapept/fasta.py:530-535 | merges another dictionary into this one in place |
| `PeptIndex.MergeTwoSpec` | alphapept/fasta.py:530-535 | the merge keeps the old keys first, then the other dictionary's new keys, and maps every key to the concatenation of both lists |
| `PeptIndex.MergePeptDictsInPlace` | alphapept/fasta.py:521-537 | ValueError on no dictionaries, else the first dictionary, updated in place to the merge of all |
| `PeptIndex.MergedSpec` | alphapept/fasta.py:521-537 | the merge keeps the first dictionary's keys as a prefix, maps the union of the keys, and lists each key's ids in input order |
| `PeptIndex.MergedMember` | alphapept/fasta.py:526-535 | an id is listed under a key after the merge exactly when some input dictionary lists it there |
| `Csr.EncodeShape` | alphapept/fasta.py:787-791 | ValueError for an empty dictionary; otherwise the peptides in insertion order, indptr starting at 0 with one entry more, non-decreasing, each slice the peptide's ids |
| `Csr.CumLengthsSlice` | alphapept/fasta.py:789-791 | the ids between consecutive pointers are one peptide's list |
| `Csr.CumLengthsMonotone` | alphapept/fasta.py:788-789 | the pointers never decrease and end at the total number of ids |
| `Csr.DecodeUpToValid` | alphapept/fasta.py:836-844 | decoding any arrays gives a well-formed dictionary over the zipped peptides |
| `Csr.DecodeEncode` | alphapept/fasta.py:836-844 | reading back a saved non-empty dictionary gives the same keys in the same order and the same lists |
| `Store.PrecursorTableSorted` | alphapept/fasta.py:769-775 | ValueError for no spectra; otherwise ascending precursors, one row per spectrum, the rows a rearrangement of the spectra's (precursor, sequence) pairs |
| `Database.CheckSequenceChars` | alphapept/fasta.py:494-502 | a record passes exactly when every character of its sequence is a known amino acid |
| `Database.ValidRecordsSpec` | alphapept/fasta.py:564-568 | the kept records are exactly the records that pass |
| `Database.ValidRecordsAppend` | alphapept/fasta.py:559-568 | filtering several files is filtering each in turn |
| `Database.FilterRecords` | alphapept/fasta.py:564-568 | the filter loop appends the valid records and files each under the next contiguous index |
| `Database.GenerateFastaList` | alphapept/fasta.py:542-570 | the list is the valid records of all files in order; the dictionary maps 0..len-1 to them |
| `Database.BlockIdx` | alphapept/fasta.py:640-653 | the while loop returns the windows (i·b, (i+1)·b) for i up to len//b |
| `Database.BlockWindowsCover` | alphapept/fasta.py:644-653 | len//b + 1 contiguous windows of width b starting at 0, the last holding len |
| `Database.BlocksFlatten` | alphapept/fasta.py:655-660 | the blocks concatenate back to the list |
| `Database.BlocksSizes` | alphapept/fasta.py:655-660 | every block holds max(1, n) elements except a shorter non-empty last one |
| `Database.PeptideListsShape` | alphapept/fasta.py:674-676 | the block digests when every record does, one peptide list per record |
| `Database.AddRecordsKeySet` | alphapept/fasta.py:674-681 | the block's dictionary maps exactly the peptides of its records |
| `Database.AddRecordsHas` | alphapept/fasta.py:677 | record f's peptides list the id fasta_index + f |
| `Database.DigestPeptidesKeySet` | alphapept/fasta.py:674-681 | the block's keys are the peptides generated from its proteins |
| `Database.DigestPeptidesListed` | alphapept/fasta.py:677 | a peptide of protein f lists id fasta_index + f |
| `Database.DigestPeptidesIdOf` | alphapept/fasta.py:677 | every listed id is fasta_index + f for a protein f that generates the peptide |
| `Database.ChunkSpectraJoin` | alphapept/fasta.py:684-686 | the spectra of the chunks are the spectra of the whole list |
| `Database.DigestFastaBlockSpectra` | alphapept/fasta.py:662-688 | one spectrum per dictionary key, in key order, each the key's spectrum |
| `Database.AddRecord` | alphapept/fasta.py:676-681 | one record's peptides go into the dictionary and its new keys are returned |
| `Database.DigestRecords` | alphapept/fasta.py:669-681 | the per-record loop builds the block dictionary and to_add is its keys |
| `Database.SpectraOfChunks` | alphapept/fasta.py:683-686 | no spectra for nothing to add, otherwise the spectra of the chunks |
| `Database.DigestFastaBlockMethod` | alphapept/fasta.py:662-688 | the block's spectra and dictionary, or the first error |
| `Database.RunEndIndicesMembers` | alphapept/fasta.py:713 | an index is kept exactly when the next spectrum has another sequence |
| `Database.KeptIndices` | alphapept/fasta.py:713-714 | the kept indices increase and end with the last index |
| `Database.DedupShape` | alphapept/fasta.py:713-714 | IndexError on no spectra; otherwise every kept spectrum comes from the input and every input sequence is kept |
| `Database.DedupKeeps` | alphapept/fasta.py:713-714 | each input sequence has a kept spectrum |
| `Database.DedupIncreasing` | alphapept/fasta.py:712-714 | on sorted input the kept sequences strictly increase |
| `Database.DedupKeepsLast` | alphapept/fasta.py:713-714 | each kept spectrum is the last of its run |
| `Pipeline.ToProcess` | alphapept/fasta.py:698-700 | one task per window of block_idx |
| `Pipeline.TaskShape` | alphapept/fasta.py:700 | task i starts at i·fasta_block and holds the slice of that window |
| `Pipeline.TaskOf` | alphapept/fasta.py:698-700 | protein id lies in task id // fasta_block, at offset id minus the task's start |
| `Pipeline.PoolResults` | alphapept/fasta.py:704-710 | the results in arrival order are the blocks' results rearranged, and succeed when all blocks do |
| `Pipeline.CollectedSpectra` | alphapept/fasta.py:709-710 | the gathered spectra are the keys' spectra, and a sequence is among them exactly when some block maps it |
| `Pipeline.TailOutcome` | alphapept/fasta.py:712-716 | IndexError exactly when no block produced a peptide |
| `Pipeline.TailSpectra` | alphapept/fasta.py:712-716 | strictly increasing sequences, each with its own spectrum; the merged dictionary maps exactly those sequences, each key's ids collected over the blocks |
| `Pipeline.TailOrder` | alphapept/fasta.py:704-716 | the arrival order changes neither the spectra nor the key set |
| `Pipeline.SortDedup` | alphapept/fasta.py:712-714 | sorting then deduplicating gives strictly increasing sequences with the input's sequence set |
| `Pipeline.SortedSpectra` | alphapept/fasta.py:712 | the sort orders by sequence and keeps every spectrum |
| `Pipeline.RunPoolOutcome` | alphapept/fasta.py:704-716 | the pool succeeds exactly when every block does and one has a peptide, else IndexError |
| `Pipeline.RunPoolSpectra` | alphapept/fasta.py:704-716 | the pool's spectra strictly increase by sequence and the dictionary maps exactly their sequences |
| `Pipeline.RunPoolIds` | alphapept/fasta.py:704-716 | an id is listed under a peptide exactly when some block lists it |
| `Pipeline.RunPoolOrder` | alphapept/fasta.py:704-716 | any two arrival orders give the same outcome, spectra and key set |
| `Pipeline.WorkerShaped` | alphapept/fasta.py:662-688 | every block's result is well shaped, with the block's digest as its dictionary |
| `Pipeline.GenerateDatabaseSpectra` | alphapept/fasta.py:690-718 | the spectra strictly increase by sequence, each is its sequence's spectrum, the dictionary maps exactly those sequences, and the protein dictionary indexes the valid records |
| `Pipeline.GenerateDatabaseOutcome` | alphapept/fasta.py:690-718 | succeeds exactly when every block digests and one has a peptide, else IndexError |
| `Pipeline.GenerateDatabaseIds` | alphapept/fasta.py:690-718 | protein id is listed under peptide exactly when that valid protein generates the peptide |
| `Pipeline.GenerateDatabaseOrder` | alphapept/fasta.py:704-718 | any two worker completion orders give the same outcome, the same spectra, the same protein dictionary and the same peptide-to-id membership; the key order and each id list's order follow the arrival order and are not claimed equal |

## Left out

- Reading FASTA files is not modelled. This covers `read_fasta_file` and
  `read_fasta_file_entries`, which use Bio.SeqIO. The records of each file are
  an input instead.
- `generate_database` is not modelled. It is the sequential variant that reads
  the files itself.
- `pept_dict_from_search` is not modelled. It reads pandas and HDF data.
- The HDF input and output of `save_database` and `read_database` is not
  modelled. alphapept.io is not part of this model.
- The fragment arrays and `bounds` of `save_database` are not modelled. They
  depend on `list_to_numpy_f32`, which is not part of this model.
- The `fasta_dict` round trip through a pandas DataFrame is not modelled.
- `list_to_numba` is not modelled. It copies a list, and lists are values here.
- The protease regular expressions and the constants tables are parameters.
  Both live in `alphapept.constants`, which is not part of this model.
- The `Pool`/`imap_unordered` concurrency is replaced by an arbitrary
  permutation of the blocks' arrival order.
- Progress callbacks are left out; `Spectra.BuildSpectra` only takes the flag
  that picks chunking.
- Masses are `real`, so IEEE rounding of the sums is not modelled.
- `Spectra.GetSpectrum`: the fragments are ordered by a stable sort. `np.argsort`
  may order equal masses differently, so the order of types among fragments of
  equal mass is not pinned to numpy's.
- `Store.PrecursorTableSorted`: it only states ascending precursors and a
  rearrangement of the rows. It does not state which of several spectra with
  the same precursor mass comes first, because that depends on `np.argsort`.
- `Seqs.Unique`: it keeps first occurrences. Python's set order is
  hash-dependent, so only the element set and the absence of duplicates are
  stated and used.
- `PeptIndex.MergePeptDictsInPlace`: it requires the dictionaries to be pairwise
  distinct objects. With the same dictionary twice, the source's loop appends to
  the list it is iterating over and does not terminate. The list aliasing of
  `new_pept_dict[key] = pept_dict[key]` is not modelled either, because id
  lists are values.
- `Database.BlockIdx`: it requires a positive block size. With a block size of
  0 or less, the source's while loop never ends.
- `Digestion.Cleave`: it requires valid match starts, meaning strictly
  increasing and inside the sequence. `re.finditer` yields such starts only for
  patterns whose matches consume at least one character. A pattern that can
  match the empty string also yields the start `len(s)`, and that case is not
  modelled.
- `Text.IsUpper`: it is true only for the ASCII letters A to Z. Python's
  `str.isupper`, which `parse` uses, also accepts other upper-case Unicode
  letters (and strings of them); such characters are treated as lower case
  here, so a peptide spelled with them is tokenized differently.
- `Masses.GetFragDict`: the result is a `map`, so the insertion order of
  `get_frag_dict`'s dictionary (b1 to b(n-1), then y1 to y(n-1)) is not
  modelled. Only the keys and their masses are stated.
- `Pipeline.GenerateDatabaseOrder`: it states that the outcome, the spectra,
  the protein dictionary and the peptide-to-id membership do not depend on the
  arrival order. The order of the merged dictionary's keys and of each id list
  does follow the arrival order. `save_database` writes both orders, and they
  are not claimed equal across arrival orders.
- `Modifications.TerminalModShape`: the raise with the undefined `key` is
  reported as `InvalidTerminalMod`. The exact Python exception type is not
  modelled.
- Only `escape_markdown` is modelled from the GUI helpers. The others drive
  streamlit, processes and files.
- alphapept/paths.py, alphapept/settings.py and alphapept/quantification.py are
  not part of this model.
