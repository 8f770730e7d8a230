/** Variable modifications: `get_mod_pos`, `get_isoforms` (itertools.product over
    the per-residue options, capped) and `add_variable_mods`. */
module Isoforms {
  import opened Outcomes
  import opened Seqs
  import opened Text

  /** The residue-to-mod table of add_variable_mods: `r[mod[-1]] = mod` for each
      mod in turn, so a later mod for the same residue wins. An empty mod raises. */
  function ModTable(mods: seq<string>): Result<map<char, string>>
  {
    if mods == [] then Ok(map[])
    else
      var t :- ModTable(mods[..|mods| - 1]);
      var m := mods[|mods| - 1];
      if m == [] then Err(IndexError) else Ok(t[m[|m| - 1] := m])
  }

  /** The dictionary loop of add_variable_mods. */
  method BuildModTable(mods: seq<string>) returns (r: Result<map<char, string>>)
    ensures r == ModTable(mods)
  {
    var t: map<char, string> := map[];
    for k := 0 to |mods|
      invariant ModTable(mods[..k]) == Ok(t)
    {
      assert mods[..k + 1][..k] == mods[..k];
      if mods[k] == [] {
        ModTableErrSticks(mods, k + 1);
        return Err(IndexError);
      }
      t := t[mods[k][|mods[k]| - 1] := mods[k]];
    }
    assert mods[..|mods|] == mods;
    return Ok(t);
  }

  lemma {:induction false} ModTableErrSticks(mods: seq<string>, k: nat)
    requires k <= |mods| && ModTable(mods[..k]).Err?
    ensures ModTable(mods) == ModTable(mods[..k])
    decreases |mods| - k
  {
    if k < |mods| {
      assert mods[..k + 1][..k] == mods[..k];
      ModTableErrSticks(mods, k + 1);
    } else {
      assert mods[..k] == mods;
    }
  }

  /** The residue a mod sits on, `mod[-1]`. */
  function Site(m: string): char
    requires m != []
  {
    m[|m| - 1]
  }

  /** The table raises exactly when some mod is empty. */
  lemma {:induction false} ModTableOk(mods: seq<string>)
    ensures ModTable(mods).Ok? <==> [] !in mods
  {
    if mods != [] {
      ModTableOk(mods[..|mods| - 1]);
      assert mods == mods[..|mods| - 1] + [mods[|mods| - 1]];
    }
  }

  /** The table's keys are the mods' residues. */
  lemma {:induction false} ModTableKeys(mods: seq<string>)
    requires [] !in mods
    ensures ModTable(mods).Ok?
    ensures forall c :: c in ModTable(mods).value <==> exists i :: 0 <= i < |mods| && Site(mods[i]) == c
  {
    ModTableOk(mods);
    if mods != [] {
      var init, m := mods[..|mods| - 1], mods[|mods| - 1];
      assert forall x :: x in init ==> x in mods;
      ModTableKeys(init);
      var t := ModTable(mods).value;
      forall c ensures c in t <==> exists i :: 0 <= i < |mods| && Site(mods[i]) == c {
        if c in t && c != Site(m) {
          var i :| 0 <= i < |init| && Site(init[i]) == c;
          assert mods[i] == init[i];
        }
        if c !in t {
          forall i | 0 <= i < |mods| ensures Site(mods[i]) != c {
            if i < |init| { assert init[i] == mods[i]; }
          }
        }
      }
    }
  }

  /** A residue maps to the last mod written for it: a later entry wins. */
  lemma {:induction false} ModTableLaterWins(mods: seq<string>, i: nat)
    requires [] !in mods && i < |mods|
    requires forall j :: i < j < |mods| ==> Site(mods[j]) != Site(mods[i])
    ensures ModTable(mods).Ok? && Site(mods[i]) in ModTable(mods).value
    ensures ModTable(mods).value[Site(mods[i])] == mods[i]
  {
    ModTableOk(mods);
    var init := mods[..|mods| - 1];
    assert forall x :: x in init ==> x in mods;
    ModTableOk(init);
    if i < |init| {
      assert init[i] == mods[i];
      assert mods[|mods| - 1] != [] by { assert mods[|mods| - 1] in mods; }
      ModTableLaterWins(init, i);
    }
  }

  /** get_mod_pos: for each character, the options "unmodified" and, when the
      table has it, "modified". */
  function ModOptions(table: map<char, string>, s: string): seq<seq<string>>
  {
    seq(|s|, i requires 0 <= i < |s| => if s[i] in table then [[s[i]], table[s[i]]] else [[s[i]]])
  }

  /** get_mod_pos, appending one option tuple per character. */
  method GetModPos(table: map<char, string>, s: string) returns (modvar: seq<seq<string>>)
    ensures modvar == ModOptions(table, s)
  {
    modvar := [];
    for i := 0 to |s|
      invariant modvar == ModOptions(table, s[..i])
    {
      if s[i] in table {
        modvar := modvar + [[[s[i]], table[s[i]]]];
      } else {
        modvar := modvar + [[[s[i]]]];
      }
    }
    assert s[..|s|] == s;
  }

  /** `"".join(o) for o in itertools.product(*opts)`: the first position varies
      slowest, and each position's options are taken in order. */
  function Product(opts: seq<seq<string>>): seq<string>
  {
    if opts == [] then [[]]
    else
      var rest := Product(opts[1..]);
      Flatten(seq(|opts[0]|, j requires 0 <= j < |opts[0]| =>
        seq(|rest|, k requires 0 <= k < |rest| => opts[0][j] + rest[k])))
  }

  /** 2 to the power k. */
  function Pow2(k: nat): nat
  {
    if k == 0 then 1 else 2 * Pow2(k - 1)
  }

  /** Number of characters of s that have a variable mod. */
  function CountModded(table: map<char, string>, s: string): nat
  {
    if s == [] then 0 else (if s[0] in table then 1 else 0) + CountModded(table, s[1..])
  }

  /** Joining m lists of length len gives m * len elements. */
  lemma {:induction false} FlattenUniformLength(parts: seq<seq<string>>, len: nat)
    requires forall j :: 0 <= j < |parts| ==> |parts[j]| == len
    ensures |Flatten(parts)| == |parts| * len
  {
    if parts != [] {
      FlattenUniformLength(parts[..|parts| - 1], len);
    }
  }

  /** The first element of a join whose first part is non-empty is that part's first element. */
  lemma FlattenFirst(parts: seq<seq<string>>)
    requires parts != [] && parts[0] != []
    ensures |Flatten(parts)| >= 1 && Flatten(parts)[0] == parts[0][0]
  {
    FlattenCons(parts[0], parts[1..]);
    assert parts == [parts[0]] + parts[1..];
  }

  /** Each element of a join comes from one of its parts. */
  lemma {:induction false} FlattenMember(parts: seq<seq<string>>, w: string)
    requires w in Flatten(parts)
    ensures exists j :: 0 <= j < |parts| && w in parts[j]
  {
    var init := parts[..|parts| - 1];
    if w in Flatten(init) {
      FlattenMember(init, w);
      var j :| 0 <= j < |init| && w in init[j];
      assert parts[j] == init[j];
    }
  }

  /** product yields 2^k isoforms, k the number of modifiable characters. */
  lemma {:induction false} ProductCount(table: map<char, string>, s: string)
    ensures |Product(ModOptions(table, s))| == Pow2(CountModded(table, s))
  {
    var opts := ModOptions(table, s);
    if s != [] {
      assert opts[1..] == ModOptions(table, s[1..]);
      ProductCount(table, s[1..]);
      var rest := Product(opts[1..]);
      var parts := seq(|opts[0]|, j requires 0 <= j < |opts[0]| =>
        seq(|rest|, k requires 0 <= k < |rest| => opts[0][j] + rest[k]));
      FlattenUniformLength(parts, |rest|);
    }
  }

  /** The first isoform is the unmodified sequence. */
  lemma {:induction false} ProductFirst(table: map<char, string>, s: string)
    ensures |Product(ModOptions(table, s))| >= 1
    ensures Product(ModOptions(table, s))[0] == s
  {
    var opts := ModOptions(table, s);
    if s != [] {
      assert opts[1..] == ModOptions(table, s[1..]);
      ProductFirst(table, s[1..]);
      var rest := Product(opts[1..]);
      var parts := seq(|opts[0]|, j requires 0 <= j < |opts[0]| =>
        seq(|rest|, k requires 0 <= k < |rest| => opts[0][j] + rest[k]));
      FlattenFirst(parts);
      assert [s[0]] + s[1..] == s;
    }
  }

  /** Each product is one option of the first position joined with a product of
      the rest. */
  lemma ProductMember(opts: seq<seq<string>>, w: string)
    requires opts != [] && w in Product(opts)
    ensures exists j, k :: 0 <= j < |opts[0]| && 0 <= k < |Product(opts[1..])| && w == opts[0][j] + Product(opts[1..])[k]
  {
    var rest := Product(opts[1..]);
    var parts := seq(|opts[0]|, j requires 0 <= j < |opts[0]| =>
      seq(|rest|, k requires 0 <= k < |rest| => opts[0][j] + rest[k]));
    FlattenMember(parts, w);
    var j :| 0 <= j < |parts| && w in parts[j];
    var k :| 0 <= k < |rest| && parts[j][k] == w;
  }

  /** With mods whose names have no upper-case letters, every isoform has the
      residue letters of the sequence. */
  lemma {:induction false} ProductResidues(table: map<char, string>, s: string)
    requires forall c :: c in table ==> Residues(table[c]) == Residues([c])
    ensures forall w :: w in Product(ModOptions(table, s)) ==> Residues(w) == Residues(s)
  {
    var opts := ModOptions(table, s);
    if s != [] {
      assert opts[1..] == ModOptions(table, s[1..]);
      ProductResidues(table, s[1..]);
      var rest := Product(opts[1..]);
      ResiduesAppend([s[0]], s[1..]);
      assert [s[0]] + s[1..] == s;
      forall w | w in Product(opts) ensures Residues(w) == Residues(s) {
        ProductMember(opts, w);
        var j, k :| 0 <= j < |opts[0]| && 0 <= k < |rest| && w == opts[0][j] + rest[k];
        assert rest[k] in rest;
        ResiduesAppend(opts[0][j], rest[k]);
        assert Residues(opts[0][j]) == Residues([s[0]]);
      }
    }
  }

  /** get_isoforms: the first max_isoforms products, or all of them. */
  function Isoforms(table: map<char, string>, s: string, maxIsoforms: int): seq<string>
  {
    var all := Product(ModOptions(table, s));
    all[..if maxIsoforms < 0 then 0 else if maxIsoforms > |all| then |all| else maxIsoforms]
  }

  /** get_isoforms, counting and breaking at max_isoforms. */
  method GetIsoforms(table: map<char, string>, s: string, maxIsoforms: int) returns (isoforms: seq<string>)
    ensures isoforms == Isoforms(table, s, maxIsoforms)
  {
    var modvar := GetModPos(table, s);
    var all := Product(modvar);
    isoforms := [];
    var i := 0;
    while i < |all|
      invariant 0 <= i <= |all|
      invariant i <= maxIsoforms || i == 0
      invariant isoforms == all[..i]
    {
      if i < maxIsoforms {
        isoforms := isoforms + [all[i]];
        i := i + 1;
      } else {
        break;
      }
    }
  }

  /** get_isoforms returns min(max_isoforms, 2^k) strings, the unmodified sequence
      first. */
  lemma IsoformsShape(table: map<char, string>, s: string, maxIsoforms: int)
    requires maxIsoforms >= 0
    ensures var n := Pow2(CountModded(table, s));
      |Isoforms(table, s, maxIsoforms)| == if maxIsoforms < n then maxIsoforms else n
    ensures maxIsoforms >= 1 ==> |Isoforms(table, s, maxIsoforms)| >= 1 && Isoforms(table, s, maxIsoforms)[0] == s
  {
    ProductCount(table, s);
    ProductFirst(table, s);
  }

  /** add_variable_mods: no mods leaves the list as it is; otherwise every
      peptide is replaced by its isoforms. */
  function VariableMods(peptides: seq<string>, mods: seq<string>, maxIsoforms: int): Result<seq<string>>
  {
    if mods == [] then Ok(peptides)
    else
      var table :- ModTable(mods);
      Ok(Flatten(seq(|peptides|, i requires 0 <= i < |peptides| => Isoforms(table, peptides[i], maxIsoforms))))
  }

  method AddVariableMods(peptides: seq<string>, mods: seq<string>, maxIsoforms: int) returns (r: Result<seq<string>>)
    ensures r == VariableMods(peptides, mods, maxIsoforms)
  {
    if mods == [] {
      return Ok(peptides);
    }
    var t := BuildModTable(mods);
    if t.Err? {
      return Err(t.error);
    }
    var table := t.value;
    var parts: seq<seq<string>> := [];
    for i := 0 to |peptides|
      invariant parts == seq(i, k requires 0 <= k < i => Isoforms(table, peptides[k], maxIsoforms))
    {
      var iso := GetIsoforms(table, peptides[i], maxIsoforms);
      parts := parts + [iso];
    }
    return Ok(Flatten(parts));
  }

  /** With max_isoforms at least 1, every peptide survives unmodified. */
  lemma VariableModsKeeps(peptides: seq<string>, mods: seq<string>, maxIsoforms: int)
    requires maxIsoforms >= 1 && VariableMods(peptides, mods, maxIsoforms).Ok?
    ensures forall p :: p in peptides ==> p in VariableMods(peptides, mods, maxIsoforms).value
  {
    if mods != [] {
      var table := ModTable(mods).value;
      var parts := seq(|peptides|, i requires 0 <= i < |peptides| => Isoforms(table, peptides[i], maxIsoforms));
      forall p | p in peptides ensures p in Flatten(parts) {
        var i :| 0 <= i < |peptides| && peptides[i] == p;
        IsoformsShape(table, p, maxIsoforms);
        assert parts[i][0] == p;
        FlattenSplit(parts, i);
      }
    }
  }
  /** With mods whose names have no upper-case letters, each table entry has the
      residue letter of its key. */
  lemma {:induction false} ModTableResidues(mods: seq<string>)
    requires forall m :: m in mods ==> m != [] && Residues(m[..|m| - 1]) == []
    ensures ModTable(mods).Ok?
    ensures forall c :: c in ModTable(mods).value ==> Residues(ModTable(mods).value[c]) == Residues([c])
  {
    if mods != [] {
      var init, m := mods[..|mods| - 1], mods[|mods| - 1];
      assert forall x :: x in init ==> x in mods;
      ModTableResidues(init);
      assert m in mods;
      assert m == m[..|m| - 1] + [m[|m| - 1]];
      ResiduesAppend(m[..|m| - 1], [m[|m| - 1]]);
    }
  }

  /** With mods whose names have no upper-case letters, add_variable_mods
      succeeds and every isoform has the residue letters of an input peptide. */
  lemma VariableModsResidues(peptides: seq<string>, mods: seq<string>, maxIsoforms: int)
    requires forall m :: m in mods ==> m != [] && Residues(m[..|m| - 1]) == []
    ensures VariableMods(peptides, mods, maxIsoforms).Ok?
    ensures ResiduesFrom(VariableMods(peptides, mods, maxIsoforms).value, peptides)
  {
    ModTableResidues(mods);
    if mods == [] {
      ResiduesFromSubset(peptides, peptides);
    } else {
      var table := ModTable(mods).value;
      var parts := seq(|peptides|, i requires 0 <= i < |peptides| => Isoforms(table, peptides[i], maxIsoforms));
      forall w | w in Flatten(parts) ensures exists p :: p in peptides && Residues(w) == Residues(p) {
        FlattenMember(parts, w);
        var j :| 0 <= j < |parts| && w in parts[j];
        var all := Product(ModOptions(table, peptides[j]));
        assert w in all by {
          var k :| 0 <= k < |parts[j]| && parts[j][k] == w;
          assert parts[j][k] == all[k];
        }
        ProductResidues(table, peptides[j]);
        assert peptides[j] in peptides;
      }
    }
  }
}
