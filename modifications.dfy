/** Fixed and terminal modifications: `add_fixed_mods`, `add_fixed_mod_terminal`,
    `add_fixed_mods_terminal` and `add_variable_mods_terminal`.
    A modification is written as its lower-case name followed by the residue it
    sits on ("oxM"); a terminal one as name, '<' or '>' for the N or C terminus,
    then '^' for any residue or the residue letter ("a<^", "ox<C"). */
module Modifications {
  import opened Outcomes
  import opened Seqs
  import opened Text
  import opened Parsing

  /** One pass of add_fixed_mods: every occurrence of the mod's last character
      becomes the whole mod. `mod_aa[-1]` raises on an empty mod, but only once a
      peptide is there to evaluate it for. */
  function FixedMod(seqs: seq<string>, m: string): Result<seq<string>>
  {
    if seqs == [] then Ok([])
    else if m == [] then Err(IndexError)
    else Ok(seq(|seqs|, i requires 0 <= i < |seqs| => ReplaceChar(seqs[i], m[|m| - 1], m)))
  }

  /** add_fixed_mods: the passes for each mod in turn. */
  function FixedMods(seqs: seq<string>, mods: seq<string>): Result<seq<string>>
  {
    if mods == [] then Ok(seqs)
    else
      var s :- FixedMods(seqs, mods[..|mods| - 1]);
      FixedMod(s, mods[|mods| - 1])
  }

  /** add_fixed_mods, rebinding the list once per mod. */
  method AddFixedMods(seqs: seq<string>, mods: seq<string>) returns (r: Result<seq<string>>)
    ensures r == FixedMods(seqs, mods)
  {
    if mods == [] {
      return Ok(seqs);
    }
    var cur := seqs;
    for k := 0 to |mods|
      invariant FixedMods(seqs, mods[..k]) == Ok(cur)
    {
      assert mods[..k + 1][..k] == mods[..k];
      if cur != [] && mods[k] == [] {
        assert FixedMods(seqs, mods[..k + 1]).Err?;
        FixedModsErrSticks(seqs, mods, k + 1);
        return Err(IndexError);
      }
      var m := mods[k];
      cur := if cur == [] then [] else seq(|cur|, i requires 0 <= i < |cur| => ReplaceChar(cur[i], m[|m| - 1], m));
    }
    assert mods[..|mods|] == mods;
    return Ok(cur);
  }

  /** Once a prefix of the mods raises, the whole list raises the same error. */
  lemma {:induction false} FixedModsErrSticks(seqs: seq<string>, mods: seq<string>, k: nat)
    requires k <= |mods| && FixedMods(seqs, mods[..k]).Err?
    ensures FixedMods(seqs, mods) == Err(FixedMods(seqs, mods[..k]).error)
    decreases |mods| - k
  {
    if k < |mods| {
      assert mods[..k + 1][..k] == mods[..k];
      FixedModsErrSticks(seqs, mods, k + 1);
    } else {
      assert mods[..k] == mods;
    }
  }

  /** add_fixed_mods keeps the list length, and raises exactly when a peptide is
      there and some mod is empty. */
  lemma {:induction false} FixedModsShape(seqs: seq<string>, mods: seq<string>)
    ensures FixedMods(seqs, mods).Ok? ==> |FixedMods(seqs, mods).value| == |seqs|
    ensures FixedMods(seqs, mods).Err? <==> seqs != [] && [] in mods
  {
    if mods != [] {
      var init := mods[..|mods| - 1];
      FixedModsShape(seqs, init);
      assert mods == init + [mods[|mods| - 1]];
    }
  }

  /** A fixed mod whose name has no upper-case letters keeps every peptide's
      residue letters: modifying changes no amino acid. */
  lemma {:induction false} FixedModsResidues(seqs: seq<string>, mods: seq<string>)
    requires forall m :: m in mods ==> m != [] && Residues(m[..|m| - 1]) == []
    ensures FixedMods(seqs, mods).Ok?
    ensures |FixedMods(seqs, mods).value| == |seqs|
    ensures forall i :: 0 <= i < |seqs| ==> Residues(FixedMods(seqs, mods).value[i]) == Residues(seqs[i])
  {
    if mods != [] {
      var init, m := mods[..|mods| - 1], mods[|mods| - 1];
      assert forall x :: x in init ==> x in mods;
      FixedModsResidues(seqs, init);
      var s := FixedMods(seqs, init).value;
      assert m == m[..|m| - 1] + [m[|m| - 1]];
      ResiduesAppend(m[..|m| - 1], [m[|m| - 1]]);
      forall i | 0 <= i < |s| ensures Residues(ReplaceChar(s[i], m[|m| - 1], m)) == Residues(s[i]) {
        ResiduesReplaceChar(s[i], m[|m| - 1], m);
      }
    }
  }

  /** The name part of a terminal mod, `mod[:-2]`. */
  function ModName(mod: string): string
  {
    PySlice(mod, 0, -2)
  }

  /** add_fixed_mod_terminal. The markers are tested in the order "<^", ">^", "<",
      ">"; the '^' forms put the name at the N terminus or just before the last
      residue, the residue-specific forms modify the first or last character
      when it is that residue. `peptide[0]` and `peptide[-1]` raise on an empty
      peptide, and an encoding with neither marker raises. */
  function TerminalMod(peptides: seq<string>, mod: string): Result<seq<string>>
  {
    if ContainsPair(mod, '<', '^') then
      Ok(seq(|peptides|, i requires 0 <= i < |peptides| => ModName(mod) + peptides[i]))
    else if ContainsPair(mod, '>', '^') then
      if [] in peptides then Err(IndexError)
      else Ok(seq(|peptides|, i requires 0 <= i < |peptides| =>
        var p := peptides[i];
        p[..|p| - 1] + ModName(mod) + [p[|p| - 1]]))
    else if '<' in mod then
      if [] in peptides then Err(IndexError)
      else Ok(seq(|peptides|, i requires 0 <= i < |peptides| =>
        var p := peptides[i];
        ReplaceChar([p[0]], mod[|mod| - 1], ModName(mod) + [mod[|mod| - 1]]) + p[1..]))
    else if '>' in mod then
      if [] in peptides then Err(IndexError)
      else Ok(seq(|peptides|, i requires 0 <= i < |peptides| =>
        var p := peptides[i];
        p[..|p| - 1] + ReplaceChar([p[|p| - 1]], mod[|mod| - 1], ModName(mod) + [mod[|mod| - 1]])))
    else Err(InvalidTerminalMod)
  }

  /** A terminal mod keeps the list length; an encoding with neither '<' nor '>'
      raises, and one with a marker raises only on an empty peptide. */
  lemma TerminalModShape(peptides: seq<string>, mod: string)
    ensures TerminalMod(peptides, mod).Ok? ==> |TerminalMod(peptides, mod).value| == |peptides|
    ensures TerminalMod(peptides, mod) == Err(InvalidTerminalMod) <==> '<' !in mod && '>' !in mod
    ensures ('<' in mod || '>' in mod) && [] !in peptides ==> TerminalMod(peptides, mod).Ok?
    ensures TerminalMod(peptides, mod).Ok? ==> forall i :: 0 <= i < |peptides| && peptides[i] != [] ==> TerminalMod(peptides, mod).value[i] != []
  {
    if ContainsPair(mod, '<', '^') {
      var i :| 0 <= i < |mod| - 1 && mod[i] == '<' && mod[i + 1] == '^';
      assert '<' in mod;
    } else if ContainsPair(mod, '>', '^') {
      var i :| 0 <= i < |mod| - 1 && mod[i] == '>' && mod[i + 1] == '^';
      assert '>' in mod;
    }
  }

  /** A residue-specific mod changes only the first (for '<') or last (for '>')
      character, and only when it is the mod's residue; elsewhere the peptide is
      kept. */
  lemma TerminalModSpecific(peptides: seq<string>, mod: string, i: nat)
    requires !ContainsPair(mod, '<', '^') && !ContainsPair(mod, '>', '^')
    requires TerminalMod(peptides, mod).Ok? && i < |peptides|
    ensures '<' in mod ==>
      var p, q := peptides[i], TerminalMod(peptides, mod).value[i];
      q == (if p[0] == mod[|mod| - 1] then ModName(mod) + [p[0]] else [p[0]]) + p[1..]
    ensures '<' !in mod ==>
      var p, q := peptides[i], TerminalMod(peptides, mod).value[i];
      q == p[..|p| - 1] + (if p[|p| - 1] == mod[|mod| - 1] then ModName(mod) + [p[|p| - 1]] else [p[|p| - 1]])
  {
    var p := peptides[i];
    assert p in peptides;
    var c := mod[|mod| - 1];
    assert ReplaceChar([p[0]], c, ModName(mod) + [c]) == if p[0] == c then ModName(mod) + [c] else [p[0]];
    assert ReplaceChar([p[|p| - 1]], c, ModName(mod) + [c]) == if p[|p| - 1] == c then ModName(mod) + [c] else [p[|p| - 1]];
  }

  /** A terminal mod whose name has no upper-case letters keeps the residue
      letters of every peptide. */
  lemma TerminalModResidues(peptides: seq<string>, mod: string)
    requires TerminalMod(peptides, mod).Ok? && Residues(ModName(mod)) == []
    ensures forall i :: 0 <= i < |peptides| ==> Residues(TerminalMod(peptides, mod).value[i]) == Residues(peptides[i])
  {
    var r := TerminalMod(peptides, mod).value;
    forall i | 0 <= i < |peptides| ensures Residues(r[i]) == Residues(peptides[i]) {
      var p := peptides[i];
      var name := ModName(mod);
      if ContainsPair(mod, '<', '^') {
        ResiduesAppend(name, p);
      } else {
        assert p in peptides;
        assert p != [];
        var c := mod[|mod| - 1];
        ResiduesAppend(name, [c]);
        if ContainsPair(mod, '>', '^') {
          ResiduesAppend(p[..|p| - 1] + name, [p[|p| - 1]]);
          ResiduesAppend(p[..|p| - 1], name);
          ResiduesAppend(p[..|p| - 1], [p[|p| - 1]]);
          assert p == p[..|p| - 1] + [p[|p| - 1]];
        } else if '<' in mod {
          ResiduesReplaceChar([p[0]], c, name + [c]);
          ResiduesAppend(ReplaceChar([p[0]], c, name + [c]), p[1..]);
          ResiduesAppend([p[0]], p[1..]);
          assert p == [p[0]] + p[1..];
        } else {
          ResiduesReplaceChar([p[|p| - 1]], c, name + [c]);
          ResiduesAppend(p[..|p| - 1], ReplaceChar([p[|p| - 1]], c, name + [c]));
          ResiduesAppend(p[..|p| - 1], [p[|p| - 1]]);
          assert p == p[..|p| - 1] + [p[|p| - 1]];
        }
      }
    }
  }

  /** An N-terminal "<^" mod joins the first residue token of a peptide. */
  lemma NTermModToken(p: string, name: string)
    requires NoUpper(name) && '_' !in name && '_' !in p && Tokenize(p) != []
    ensures Tokenize(name + p) == [name + Tokenize(p)[0]] + Tokenize(p)[1..]
  {
    assert '_' !in name + p;
    TokensFromAppend([], name, p);
    TokensFromNoUpper([], name);
    assert [] + name == name;
    TokensFromPrefix(name, [], p);
    assert name + [] == name;
  }

  /** A C-terminal "^" mod joins the last residue token, in front of its residue. */
  lemma CTermModToken(p: string, name: string)
    requires NoUpper(name) && '_' !in name && '_' !in p && p != [] && IsUpper(p[|p| - 1])
    ensures var t := Tokenize(p);
      t != [] && |t[|t| - 1]| >= 1 && Tokenize(p[..|p| - 1] + name + [p[|p| - 1]]) == t[..|t| - 1] + [t[|t| - 1][..|t[|t| - 1]| - 1] + name + [p[|p| - 1]]]
  {
    var init, c := p[..|p| - 1], p[|p| - 1];
    assert p == init + [c];
    var q := init + name + [c];
    assert '_' !in q;
    assert WellFormedToken(name + [c]) by {
      assert (name + [c])[..|name + [c]| - 1] == name;
    }
    assert WellFormedToken([c]) by { assert [c][..0] == []; }
    TokensFromAppend([], init, name + [c]);
    assert init + (name + [c]) == q;
    TokensFromAppend([], init, [c]);
    var pend := Residue([], init);
    TokensFromToken(pend, name + [c]);
    TokensFromToken(pend, [c]);
    var t := Tokenize(p);
    assert t == TokensFrom([], init) + [pend + [c]];
    assert t[..|t| - 1] == TokensFrom([], init);
    assert t[|t| - 1][..|t[|t| - 1]| - 1] == pend;
    assert pend + (name + [c]) == pend + name + [c];
  }

  /** add_fixed_mods_terminal: each mod applied to the whole list in turn. */
  function FixedModsTerminal(peptides: seq<string>, mods: seq<string>): Result<seq<string>>
  {
    if mods == [] then Ok(peptides)
    else
      var s :- FixedModsTerminal(peptides, mods[..|mods| - 1]);
      TerminalMod(s, mods[|mods| - 1])
  }

  method AddFixedModsTerminal(peptides: seq<string>, mods: seq<string>) returns (r: Result<seq<string>>)
    ensures r == FixedModsTerminal(peptides, mods)
  {
    var cur := peptides;
    for k := 0 to |mods|
      invariant FixedModsTerminal(peptides, mods[..k]) == Ok(cur)
    {
      assert mods[..k + 1][..k] == mods[..k];
      var next := TerminalMod(cur, mods[k]);
      if next.Err? {
        FixedModsTerminalErrSticks(peptides, mods, k + 1);
        return next;
      }
      cur := next.value;
    }
    assert mods[..|mods|] == mods;
    return Ok(cur);
  }

  lemma {:induction false} FixedModsTerminalErrSticks(peptides: seq<string>, mods: seq<string>, k: nat)
    requires k <= |mods| && FixedModsTerminal(peptides, mods[..k]).Err?
    ensures FixedModsTerminal(peptides, mods) == FixedModsTerminal(peptides, mods[..k])
    decreases |mods| - k
  {
    if k < |mods| {
      assert mods[..k + 1][..k] == mods[..k];
      FixedModsTerminalErrSticks(peptides, mods, k + 1);
    } else {
      assert mods[..k] == mods;
    }
  }

  /** add_fixed_mods_terminal keeps the list length, and every listed mod with a
      marker and a name free of upper-case letters keeps the residue letters. */
  lemma {:induction false} FixedModsTerminalPreserves(peptides: seq<string>, mods: seq<string>)
    requires forall m :: m in mods ==> Residues(ModName(m)) == []
    requires FixedModsTerminal(peptides, mods).Ok?
    ensures |FixedModsTerminal(peptides, mods).value| == |peptides|
    ensures forall i :: 0 <= i < |peptides| ==>
      Residues(FixedModsTerminal(peptides, mods).value[i]) == Residues(peptides[i])
  {
    if mods != [] {
      var init := mods[..|mods| - 1];
      assert forall x :: x in init ==> x in mods;
      FixedModsTerminalPreserves(peptides, init);
      var s := FixedModsTerminal(peptides, init).value;
      TerminalModShape(s, mods[|mods| - 1]);
      TerminalModResidues(s, mods[|mods| - 1]);
    }
  }

  /** The N-terminal loop of add_variable_mods_terminal: the list extended, for
      each key with '<', by that key applied to the original peptides. */
  function NTermVariants(peptides: seq<string>, keys: seq<string>): Result<seq<string>>
  {
    if keys == [] then Ok(peptides)
    else
      var acc :- NTermVariants(peptides, keys[..|keys| - 1]);
      var key := keys[|keys| - 1];
      if '<' in key then
        var added :- TerminalMod(peptides, key);
        Ok(acc + added)
      else Ok(acc)
  }

  /** The C-terminal loop: `new_peptides_c` is the same list as `new_peptides_n`,
      so each key with '>' is applied to the list as extended by the keys before
      it. */
  function CTermVariants(start: seq<string>, keys: seq<string>): Result<seq<string>>
  {
    if keys == [] then Ok(start)
    else
      var acc :- CTermVariants(start, keys[..|keys| - 1]);
      var key := keys[|keys| - 1];
      if '>' in key then
        var added :- TerminalMod(acc, key);
        Ok(acc + added)
      else Ok(acc)
  }

  /** add_variable_mods_terminal. */
  function VariableModsTerminal(peptides: seq<string>, keys: seq<string>): Result<seq<string>>
  {
    if keys == [] then Ok(peptides)
    else
      var n :- NTermVariants(peptides, keys);
      var c :- CTermVariants(Unique(n), keys);
      Ok(Unique(c))
  }

  method AddVariableModsTerminal(peptides: seq<string>, keys: seq<string>) returns (r: Result<seq<string>>)
    ensures r == VariableModsTerminal(peptides, keys)
  {
    if keys == [] {
      return Ok(peptides);
    }
    var newN := peptides;
    for k := 0 to |keys|
      invariant NTermVariants(peptides, keys[..k]) == Ok(newN)
    {
      assert keys[..k + 1][..k] == keys[..k];
      if '<' in keys[k] {
        var added := TerminalMod(peptides, keys[k]);
        if added.Err? {
          NTermErrSticks(peptides, keys, k + 1);
          return Err(added.error);
        }
        newN := newN + added.value;
      }
    }
    assert keys[..|keys|] == keys;
    newN := Unique(newN);
    var newC := newN;
    for k := 0 to |keys|
      invariant CTermVariants(newN, keys[..k]) == Ok(newC)
    {
      assert keys[..k + 1][..k] == keys[..k];
      if '>' in keys[k] {
        var added := TerminalMod(newC, keys[k]);
        if added.Err? {
          CTermErrSticks(newN, keys, k + 1);
          return Err(added.error);
        }
        newC := newC + added.value;
      }
    }
    assert keys[..|keys|] == keys;
    return Ok(Unique(newC));
  }

  lemma {:induction false} NTermErrSticks(peptides: seq<string>, keys: seq<string>, k: nat)
    requires k <= |keys| && NTermVariants(peptides, keys[..k]).Err?
    ensures NTermVariants(peptides, keys) == NTermVariants(peptides, keys[..k])
    decreases |keys| - k
  {
    if k < |keys| {
      assert keys[..k + 1][..k] == keys[..k];
      NTermErrSticks(peptides, keys, k + 1);
    } else {
      assert keys[..k] == keys;
    }
  }

  lemma {:induction false} CTermErrSticks(start: seq<string>, keys: seq<string>, k: nat)
    requires k <= |keys| && CTermVariants(start, keys[..k]).Err?
    ensures CTermVariants(start, keys) == CTermVariants(start, keys[..k])
    decreases |keys| - k
  {
    if k < |keys| {
      assert keys[..k + 1][..k] == keys[..k];
      CTermErrSticks(start, keys, k + 1);
    } else {
      assert keys[..k] == keys;
    }
  }

  lemma {:induction false} NTermKeeps(peptides: seq<string>, keys: seq<string>)
    requires NTermVariants(peptides, keys).Ok?
    ensures forall p :: p in peptides ==> p in NTermVariants(peptides, keys).value
    ensures (forall k :: k in keys ==> '<' !in k) ==> NTermVariants(peptides, keys).value == peptides
  {
    if keys != [] {
      var init := keys[..|keys| - 1];
      assert forall x :: x in init ==> x in keys;
      NTermKeeps(peptides, init);
    }
  }

  lemma {:induction false} CTermKeeps(start: seq<string>, keys: seq<string>)
    requires CTermVariants(start, keys).Ok?
    ensures forall p :: p in start ==> p in CTermVariants(start, keys).value
    ensures (forall k :: k in keys ==> '>' !in k) ==> CTermVariants(start, keys).value == start
  {
    if keys != [] {
      var init := keys[..|keys| - 1];
      assert forall x :: x in init ==> x in keys;
      CTermKeeps(start, init);
    }
  }

  /** add_variable_mods_terminal with at least one key returns a duplicate-free
      list that holds every input peptide; when no key carries a marker it holds
      exactly the input peptides. */
  lemma VariableModsTerminalKeeps(peptides: seq<string>, keys: seq<string>)
    requires keys != [] && VariableModsTerminal(peptides, keys).Ok?
    ensures NoDup(VariableModsTerminal(peptides, keys).value)
    ensures forall p :: p in peptides ==> p in VariableModsTerminal(peptides, keys).value
    ensures (forall k :: k in keys ==> '<' !in k && '>' !in k) ==>
      forall p :: p in VariableModsTerminal(peptides, keys).value <==> p in peptides
  {
    NTermKeeps(peptides, keys);
    var n := NTermVariants(peptides, keys).value;
    CTermKeeps(Unique(n), keys);
  }

  /** With marker names free of upper-case letters, every N-terminal variant
      has the residue letters of an input peptide. */
  lemma {:induction false} NTermResidues(peptides: seq<string>, keys: seq<string>)
    requires forall k :: k in keys ==> Residues(ModName(k)) == []
    requires NTermVariants(peptides, keys).Ok?
    ensures ResiduesFrom(NTermVariants(peptides, keys).value, peptides)
  {
    if keys == [] {
      ResiduesFromPointwise(peptides, peptides);
    } else {
      var init, key := keys[..|keys| - 1], keys[|keys| - 1];
      assert forall x :: x in init ==> x in keys;
      NTermResidues(peptides, init);
      if '<' in key {
        TerminalModShape(peptides, key);
        TerminalModResidues(peptides, key);
        ResiduesFromPointwise(TerminalMod(peptides, key).value, peptides);
      }
    }
  }

  /** With marker names free of upper-case letters, every C-terminal variant
      has the residue letters of a starting peptide. */
  lemma {:induction false} CTermResidues(start: seq<string>, keys: seq<string>)
    requires forall k :: k in keys ==> Residues(ModName(k)) == []
    requires CTermVariants(start, keys).Ok?
    ensures ResiduesFrom(CTermVariants(start, keys).value, start)
  {
    if keys == [] {
      ResiduesFromPointwise(start, start);
    } else {
      var init, key := keys[..|keys| - 1], keys[|keys| - 1];
      assert forall x :: x in init ==> x in keys;
      CTermResidues(start, init);
      if '>' in key {
        var acc := CTermVariants(start, init).value;
        TerminalModShape(acc, key);
        TerminalModResidues(acc, key);
        ResiduesFromPointwise(TerminalMod(acc, key).value, acc);
        ResiduesFromTrans(TerminalMod(acc, key).value, acc, start);
      }
    }
  }

  /** With marker names free of upper-case letters, every peptide
      add_variable_mods_terminal returns has the residue letters of an input
      peptide. */
  lemma VariableModsTerminalResidues(peptides: seq<string>, keys: seq<string>)
    requires forall k :: k in keys ==> Residues(ModName(k)) == []
    requires VariableModsTerminal(peptides, keys).Ok?
    ensures ResiduesFrom(VariableModsTerminal(peptides, keys).value, peptides)
  {
    if keys == [] {
      ResiduesFromPointwise(peptides, peptides);
    } else {
      var n := NTermVariants(peptides, keys).value;
      var c := CTermVariants(Unique(n), keys).value;
      NTermResidues(peptides, keys);
      CTermResidues(Unique(n), keys);
      ResiduesFromSubset(Unique(c), c);
      ResiduesFromTrans(Unique(c), c, Unique(n));
      ResiduesFromSubset(Unique(n), n);
      ResiduesFromTrans(Unique(c), Unique(n), n);
      ResiduesFromTrans(Unique(c), n, peptides);
    }
  }

  lemma {:induction false} NTermTotal(peptides: seq<string>, keys: seq<string>)
    requires [] !in peptides
    ensures NTermVariants(peptides, keys).Ok?
    ensures [] !in NTermVariants(peptides, keys).value
  {
    if keys != [] {
      NTermTotal(peptides, keys[..|keys| - 1]);
      var key := keys[|keys| - 1];
      TerminalModShape(peptides, key);
      if '<' in key {
        var added := TerminalMod(peptides, key).value;
        assert forall i :: 0 <= i < |added| ==> added[i] != [] by {
          forall i | 0 <= i < |added| ensures added[i] != [] { assert peptides[i] in peptides; }
        }
      }
    }
  }

  lemma {:induction false} CTermTotal(start: seq<string>, keys: seq<string>)
    requires [] !in start
    ensures CTermVariants(start, keys).Ok?
    ensures [] !in CTermVariants(start, keys).value
  {
    if keys != [] {
      CTermTotal(start, keys[..|keys| - 1]);
      var acc := CTermVariants(start, keys[..|keys| - 1]).value;
      var key := keys[|keys| - 1];
      TerminalModShape(acc, key);
      if '>' in key {
        var added := TerminalMod(acc, key).value;
        assert forall i :: 0 <= i < |added| ==> added[i] != [] by {
          forall i | 0 <= i < |added| ensures added[i] != [] { assert acc[i] in acc; }
        }
      }
    }
  }

  /** add_variable_mods_terminal never raises on non-empty peptides: every key
      it applies carries a marker. */
  lemma VariableModsTerminalTotal(peptides: seq<string>, keys: seq<string>)
    requires [] !in peptides
    ensures VariableModsTerminal(peptides, keys).Ok?
  {
    NTermTotal(peptides, keys);
    CTermTotal(Unique(NTermVariants(peptides, keys).value), keys);
  }
}
