/** Precursor and fragment masses: `get_precmass`, `get_fragmass` and
    `get_frag_dict`. The mass table maps each token, "H2O" and "Proton" to a
    mass; a missing key raises KeyError. Masses are exact reals. */
module Masses {
  import opened Outcomes
  import opened Seqs
  import opened Text

  type MassTable = map<string, real>

  /** Every token has a mass in the table. */
  predicate Known(md: MassTable, tokens: seq<string>)
  {
    forall i :: 0 <= i < |tokens| ==> tokens[i] in md
  }

  /** The total mass of the tokens. */
  function Sum(md: MassTable, tokens: seq<string>): real
    requires Known(md, tokens)
  {
    if tokens == [] then 0.0 else Sum(md, tokens[..|tokens| - 1]) + md[tokens[|tokens| - 1]]
  }

  /** Masses add up over a split of the token list. */
  lemma {:induction false} SumAppend(md: MassTable, a: seq<string>, b: seq<string>)
    requires Known(md, a) && Known(md, b)
    ensures Known(md, a + b)
    ensures Sum(md, a + b) == Sum(md, a) + Sum(md, b)
  {
    if b != [] {
      SumAppend(md, a, b[..|b| - 1]);
      assert (a + b)[..|a + b| - 1] == a + b[..|b| - 1];
    } else {
      assert a + b == a;
    }
  }

  /** The total mass with the first token split off. */
  lemma SumFront(md: MassTable, tokens: seq<string>)
    requires Known(md, tokens) && tokens != []
    ensures Sum(md, tokens) == md[tokens[0]] + Sum(md, tokens[1..])
  {
    assert tokens == [tokens[0]] + tokens[1..];
    SumAppend(md, [tokens[0]], tokens[1..]);
  }

  /** get_precmass: water plus every token's mass. */
  function PrecMass(tokens: seq<string>, md: MassTable): Result<real>
  {
    if "H2O" !in md || !Known(md, tokens) then Err(KeyError)
    else Ok(md["H2O"] + Sum(md, tokens))
  }

  /** get_precmass, accumulating token by token. */
  method GetPrecMass(tokens: seq<string>, md: MassTable) returns (r: Result<real>)
    ensures r == PrecMass(tokens, md)
  {
    if "H2O" !in md {
      return Err(KeyError);
    }
    var tmass := md["H2O"];
    for i := 0 to |tokens|
      invariant Known(md, tokens[..i])
      invariant tmass == md["H2O"] + Sum(md, tokens[..i])
    {
      if tokens[i] !in md {
        return Err(KeyError);
      }
      assert tokens[..i + 1][..i] == tokens[..i];
      tmass := tmass + md[tokens[i]];
    }
    assert tokens[..|tokens|] == tokens;
    return Ok(tmass);
  }

  /** Fragment masses and ion types (0 for b, 1 for y), in the order filled. */
  datatype FragIons = FragIons(masses: seq<real>, types: seq<int>)

  /** The keys get_fragmass reads for n = |tokens| >= 1: the b loop reads all but
      the last token, the y loop all but the first. */
  predicate FragKeys(tokens: seq<string>, md: MassTable)
    requires tokens != []
  {
    "Proton" in md && "H2O" in md && Known(md, tokens[..|tokens| - 1]) && Known(md, tokens[1..])
  }

  /** b ion i: a proton plus the first i + 1 tokens. */
  function BIon(tokens: seq<string>, md: MassTable, i: nat): real
    requires i < |tokens| && "Proton" in md && Known(md, tokens[..i + 1])
  {
    md["Proton"] + Sum(md, tokens[..i + 1])
  }

  /** y ion i: a proton and water plus the last i + 1 tokens. */
  function YIon(tokens: seq<string>, md: MassTable, i: nat): real
    requires i < |tokens| && "Proton" in md && "H2O" in md && Known(md, tokens[|tokens| - 1 - i..])
  {
    md["Proton"] + md["H2O"] + Sum(md, tokens[|tokens| - 1 - i..])
  }

  /** The first c b ions. */
  function BIons(tokens: seq<string>, md: MassTable, c: nat): (r: seq<real>)
    requires c <= |tokens| && "Proton" in md && Known(md, tokens[..c])
    ensures |r| == c
  {
    seq(c, i requires 0 <= i < c => BIon(tokens, md, i))
  }

  /** The first c y ions. */
  function YIons(tokens: seq<string>, md: MassTable, c: nat): (r: seq<real>)
    requires c <= |tokens| && "Proton" in md && "H2O" in md && Known(md, tokens[|tokens| - c..])
    ensures |r| == c
  {
    seq(c, i requires 0 <= i < c => YIon(tokens, md, i))
  }

  /** For two or more tokens the keys get_fragmass reads are all the tokens. */
  lemma FragKeysAll(tokens: seq<string>, md: MassTable)
    requires |tokens| >= 2 && FragKeys(tokens, md)
    ensures Known(md, tokens)
  {
    forall i | 0 <= i < |tokens| ensures tokens[i] in md {
      if i < |tokens| - 1 { assert tokens[..|tokens| - 1][i] == tokens[i]; }
      else { assert tokens[1..][i - 1] == tokens[i]; }
    }
  }

  /** get_fragmass: n - 1 b ions then n - 1 y ions. An empty token list asks
      numpy for arrays of length -2, which raises ValueError. */
  function FragMass(tokens: seq<string>, md: MassTable): Result<FragIons>
  {
    if tokens == [] then Err(ValueError)
    else if !FragKeys(tokens, md) then Err(KeyError)
    else if |tokens| == 1 then Ok(FragIons([], []))
    else
      FragKeysAll(tokens, md);
      var n := |tokens|;
      assert tokens[n - (n - 1)..] == tokens[1..];
      Ok(FragIons(BIons(tokens, md, n - 1) + YIons(tokens, md, n - 1), Repeat(0, n - 1) + Repeat(1, n - 1)))
  }

  /** get_fragmass raises ValueError exactly on an empty token list and KeyError
      exactly when a key it reads is missing; it yields 2(n - 1) masses, the
      first n - 1 of type 0 (b) and the rest of type 1 (y). */
  lemma FragMassOutcome(tokens: seq<string>, md: MassTable)
    ensures FragMass(tokens, md) == Err(ValueError) <==> tokens == []
    ensures FragMass(tokens, md) == Err(KeyError) <==> tokens != [] && !FragKeys(tokens, md)
    ensures FragMass(tokens, md).Ok? ==>
      && |FragMass(tokens, md).value.masses| == |FragMass(tokens, md).value.types| == 2 * (|tokens| - 1)
      && (forall i :: 0 <= i < |tokens| - 1 ==> FragMass(tokens, md).value.types[i] == 0)
      && (forall i :: |tokens| - 1 <= i < 2 * (|tokens| - 1) ==> FragMass(tokens, md).value.types[i] == 1)
  {
  }

  /** A b ion and the complementary y ion add up to the precursor plus two
      protons' worth of the peptide: b_i + y_(n-2-i) = 2 Proton + H2O + total. */
  lemma FragMassComplement(tokens: seq<string>, md: MassTable, i: nat)
    requires FragMass(tokens, md).Ok? && i < |tokens| - 1
    ensures Known(md, tokens)
    ensures var m := FragMass(tokens, md).value.masses; var n := |tokens|;
      m[i] + m[n - 1 + (n - 2 - i)] == 2.0 * md["Proton"] + md["H2O"] + Sum(md, tokens)
  {
    var n := |tokens|;
    FragKeysAll(tokens, md);
    assert tokens[n - 1 - (n - 2 - i)..] == tokens[i + 1..];
    assert tokens == tokens[..i + 1] + tokens[i + 1..];
    SumAppend(md, tokens[..i + 1], tokens[i + 1..]);
  }

  /** With positive residue masses, b ions and y ions each increase. */
  lemma FragMassIncreasing(tokens: seq<string>, md: MassTable, i: nat)
    requires FragMass(tokens, md).Ok? && i + 1 < |tokens| - 1
    requires forall t :: t in tokens ==> t in md && md[t] > 0.0
    ensures var m := FragMass(tokens, md).value.masses; var n := |tokens|;
      m[i] < m[i + 1] && m[n - 1 + i] < m[n - 1 + i + 1]
  {
    var n := |tokens|;
    assert tokens[..i + 2][..i + 1] == tokens[..i + 1];
    assert tokens[i + 1] in tokens;
    var a := tokens[n - 1 - (i + 1)..];
    SumFront(md, a);
    assert a[1..] == tokens[n - 1 - i..];
    assert a[0] in tokens;
  }

  /** The b loop of get_fragmass: fills the first n - 1 slots, or stops at the
      first token without a mass. */
  method FillBIons(tokens: seq<string>, md: MassTable, fragMasses: array<real>, fragType: array<int>) returns (ok: bool)
    requires |tokens| >= 1 && "Proton" in md
    requires fragMasses.Length == fragType.Length == 2 * (|tokens| - 1)
    modifies fragMasses, fragType
    ensures ok <==> Known(md, tokens[..|tokens| - 1])
    ensures ok ==> fragMasses[..|tokens| - 1] == BIons(tokens, md, |tokens| - 1)
    ensures ok ==> fragType[..|tokens| - 1] == Repeat(0, |tokens| - 1)
  {
    var n := |tokens|;
    var fragM := md["Proton"];
    for i := 0 to n - 1
      invariant Known(md, tokens[..i])
      invariant fragM == md["Proton"] + Sum(md, tokens[..i])
      invariant fragMasses[..i] == BIons(tokens, md, i)
      invariant fragType[..i] == Repeat(0, i)
    {
      if tokens[i] !in md {
        assert tokens[..n - 1][i] == tokens[i];
        return false;
      }
      assert tokens[..i + 1][..i] == tokens[..i];
      fragM := fragM + md[tokens[i]];
      fragMasses[i] := fragM;
      fragType[i] := 0;
      assert BIons(tokens, md, i + 1) == BIons(tokens, md, i) + [BIon(tokens, md, i)];
      assert fragMasses[..i + 1] == fragMasses[..i] + [fragMasses[i]];
      assert fragType[..i + 1] == fragType[..i] + [fragType[i]];
    }
    return true;
  }

  /** One step of the b loop: one more token from the N terminus. */
  lemma BIonsStep(tokens: seq<string>, md: MassTable, i: nat)
    requires i < |tokens| && "Proton" in md
    requires Known(md, tokens[..i]) && tokens[i] in md
    ensures Known(md, tokens[..i + 1])
    ensures Sum(md, tokens[..i + 1]) == Sum(md, tokens[..i]) + md[tokens[i]]
    ensures BIons(tokens, md, i + 1) == BIons(tokens, md, i) + [BIon(tokens, md, i)]
  {
    assert tokens[..i + 1][..i] == tokens[..i];
  }

  /** One step of the y loop: one more token from the C terminus. */
  lemma YIonsStep(tokens: seq<string>, md: MassTable, j: nat)
    requires j < |tokens| && "Proton" in md && "H2O" in md
    requires Known(md, tokens[|tokens| - j..]) && tokens[|tokens| - 1 - j] in md
    ensures Known(md, tokens[|tokens| - 1 - j..])
    ensures Sum(md, tokens[|tokens| - 1 - j..]) == md[tokens[|tokens| - 1 - j]] + Sum(md, tokens[|tokens| - j..])
    ensures YIons(tokens, md, j + 1) == YIons(tokens, md, j) + [YIon(tokens, md, j)]
  {
    var n := |tokens|;
    assert tokens[n - 1 - j..] == [tokens[n - 1 - j]] + tokens[n - j..];
    SumAppend(md, [tokens[n - 1 - j]], tokens[n - j..]);
  }

  /** Writing slot a + j extends the slice from a by that value and keeps the
      rest. */
  lemma SliceUpdate<T>(s: seq<T>, a: nat, j: nat, v: T)
    requires a + j < |s|
    ensures s[a + j := v][a..a + j + 1] == s[a..a + j] + [v]
    ensures s[a + j := v][..a] == s[..a]
  {
  }

  /** The y loop of get_fragmass: fills the last n - 1 slots from the C terminus,
      or stops at the first token without a mass. */
  method FillYIons(tokens: seq<string>, md: MassTable, fragMasses: array<real>, fragType: array<int>) returns (ok: bool)
    requires |tokens| >= 1 && "Proton" in md && "H2O" in md
    requires fragMasses.Length == fragType.Length == 2 * (|tokens| - 1)
    modifies fragMasses, fragType
    ensures ok <==> Known(md, tokens[1..])
    ensures ok ==> fragMasses[|tokens| - 1..] == YIons(tokens, md, |tokens| - 1)
    ensures ok ==> fragType[|tokens| - 1..] == Repeat(1, |tokens| - 1)
    ensures fragMasses[..|tokens| - 1] == old(fragMasses[..|tokens| - 1])
    ensures fragType[..|tokens| - 1] == old(fragType[..|tokens| - 1])
  {
    var n := |tokens|;
    var fragM := md["Proton"] + md["H2O"];
    for j := 0 to n - 1
      invariant Known(md, tokens[n - j..])
      invariant fragM == md["Proton"] + md["H2O"] + Sum(md, tokens[n - j..])
      invariant forall k :: 0 <= k < j ==> fragMasses[n - 1 + k] == YIon(tokens, md, k)
      invariant forall k :: n - 1 <= k < n - 1 + j ==> fragType[k] == 1
      invariant fragMasses[..n - 1] == old(fragMasses[..n - 1])
      invariant fragType[..n - 1] == old(fragType[..n - 1])
    {
      var t := tokens[n - 1 - j];
      if t !in md {
        assert tokens[1..][n - 2 - j] == t;
        return false;
      }
      YIonsStep(tokens, md, j);
      fragM := fragM + md[t];
      ghost var m0, t0 := fragMasses[..], fragType[..];
      fragMasses[n - 1 + j] := fragM;
      fragType[n - 1 + j] := 1;
      assert fragMasses[..] == m0[n - 1 + j := fragM];
      assert fragType[..] == t0[n - 1 + j := 1];
      SliceUpdate(m0, n - 1, j, fragM);
      SliceUpdate(t0, n - 1, j, 1);
    }
    assert tokens[n - (n - 1)..] == tokens[1..];
    assert fragType[n - 1..] == Repeat(1, n - 1);
    assert fragMasses[n - 1..] == YIons(tokens, md, n - 1);
    return true;
  }

  /** get_fragmass, filling the two arrays in its two loops. */
  method GetFragMass(tokens: seq<string>, md: MassTable) returns (r: Result<FragIons>)
    ensures r == FragMass(tokens, md)
  {
    var n := |tokens|;
    if n == 0 {
      return Err(ValueError);
    }
    var fragMasses := new real[2 * (n - 1)];
    var fragType := new int[2 * (n - 1)];
    if "Proton" !in md {
      return Err(KeyError);
    }
    var okB := FillBIons(tokens, md, fragMasses, fragType);
    if !okB {
      return Err(KeyError);
    }
    if "H2O" !in md {
      return Err(KeyError);
    }
    var okY := FillYIons(tokens, md, fragMasses, fragType);
    if !okY {
      return Err(KeyError);
    }
    if n == 1 {
      return Ok(FragIons([], []));
    }
    assert fragMasses[..] == fragMasses[..n - 1] + fragMasses[n - 1..];
    assert fragType[..] == fragType[..n - 1] + fragType[n - 1..];
    return Ok(FragIons(fragMasses[..], fragType[..]));
  }

  /** The name of an ion in get_frag_dict: its letter and 1-based number. */
  function IonName(kind: char, k: nat): string
  {
    [kind] + NatToString(k)
  }

  lemma IonNameInjective(a: char, k: nat, b: char, l: nat)
    requires IonName(a, k) == IonName(b, l)
    ensures a == b && k == l
  {
    assert IonName(a, k)[0] == a && IonName(b, l)[0] == b;
    assert IonName(a, k)[1..] == NatToString(k);
    assert IonName(b, l)[1..] == NatToString(l);
    NatToStringInjective(k, l);
  }

  /** The dictionary entries kind+"1", kind+"2", ... set to vals in turn. */
  function IonMap(kind: char, vals: seq<real>): map<string, real>
  {
    if vals == [] then map[] else IonMap(kind, vals[..|vals| - 1])[IonName(kind, |vals|) := vals[|vals| - 1]]
  }

  /** One more mass adds the next name. */
  lemma IonMapSnoc(kind: char, vals: seq<real>, x: real)
    ensures IonMap(kind, vals + [x]) == IonMap(kind, vals)[IonName(kind, |vals| + 1) := x]
  {
    assert (vals + [x])[..|vals|] == vals;
  }

  /** IonMap holds kind+str(k) for k = 1..|vals| and nothing else. */
  lemma {:induction false} IonMapLookup(kind: char, vals: seq<real>)
    ensures forall k :: 1 <= k <= |vals| ==> IonName(kind, k) in IonMap(kind, vals) && IonMap(kind, vals)[IonName(kind, k)] == vals[k - 1]
    ensures forall key :: key in IonMap(kind, vals) ==> exists k :: 1 <= k <= |vals| && key == IonName(kind, k)
  {
    if vals != [] {
      var init := vals[..|vals| - 1];
      IonMapLookup(kind, init);
      forall k | 1 <= k < |vals| ensures IonName(kind, k) != IonName(kind, |vals|) {
        if IonName(kind, k) == IonName(kind, |vals|) { IonNameInjective(kind, k, kind, |vals|); }
      }
    }
  }

  /** get_frag_dict: "b1".."b(n-1)" and "y1".."y(n-1)" to their masses. An empty
      token list yields an empty dictionary (the arrays of get_fragmass are never
      made), but "Proton" and "H2O" are still read. */
  function FragDict(tokens: seq<string>, md: MassTable): Result<map<string, real>>
  {
    if tokens == [] then
      (if "Proton" in md && "H2O" in md then Ok(map[]) else Err(KeyError))
    else
      var ions :- FragMass(tokens, md);
      var n := |tokens|;
      Ok(IonMap('b', ions.masses[..n - 1]) + IonMap('y', ions.masses[n - 1..]))
  }

  /** "b"+str(k) and "y"+str(k), for k = 1..n - 1, map to the k-th b mass and
      the k-th y mass of m, and d has no other key. */
  predicate IonDict(d: map<string, real>, m: seq<real>, n: nat)
    requires |m| == 2 * (n - 1)
  {
    && (forall k :: 1 <= k < n ==> IonName('b', k) in d && d[IonName('b', k)] == m[k - 1])
    && (forall k :: 1 <= k < n ==> IonName('y', k) in d && d[IonName('y', k)] == m[n - 2 + k])
    && (forall key :: key in d ==> exists k :: 1 <= k < n && (key == IonName('b', k) || key == IonName('y', k)))
  }

  /** get_frag_dict agrees with get_fragmass: it raises exactly when
      get_fragmass would on a non-empty list, and "b"+str(k) / "y"+str(k) hold
      the k-th b and y masses, with no other keys. */
  lemma FragDictAgrees(tokens: seq<string>, md: MassTable)
    requires tokens != []
    ensures FragDict(tokens, md).Ok? <==> FragMass(tokens, md).Ok?
    ensures FragDict(tokens, md).Ok? ==> IonDict(FragDict(tokens, md).value, FragMass(tokens, md).value.masses, |tokens|)
  {
    FragDictMaps(tokens, md);
    if FragDict(tokens, md).Ok? {
      IonMapsSplit(FragMass(tokens, md).value.masses, |tokens|);
    }
  }

  /** On a non-empty list, get_frag_dict is the b map of the first n - 1
      masses of get_fragmass joined with the y map of the rest. */
  lemma FragDictMaps(tokens: seq<string>, md: MassTable)
    requires tokens != []
    ensures FragDict(tokens, md).Ok? <==> FragMass(tokens, md).Ok?
    ensures FragDict(tokens, md).Ok? ==>
      var m, n := FragMass(tokens, md).value.masses, |tokens|;
      && |m| == 2 * (n - 1)
      && FragDict(tokens, md).value == IonMap('b', m[..n - 1]) + IonMap('y', m[n - 1..])
  {
    FragMassOutcome(tokens, md);
  }

  /** The b map of the first n - 1 masses joined with the y map of the rest. */
  lemma IonMapsSplit(m: seq<real>, n: nat)
    requires n >= 1 && |m| == 2 * (n - 1)
    ensures IonDict(IonMap('b', m[..n - 1]) + IonMap('y', m[n - 1..]), m, n)
  {
    var bs, ys := m[..n - 1], m[n - 1..];
    IonMapsJoin(bs, ys);
    var d := IonMap('b', bs) + IonMap('y', ys);
    forall k | 1 <= k < n ensures IonName('b', k) in d && d[IonName('b', k)] == m[k - 1] {
      assert bs[k - 1] == m[k - 1];
    }
    forall k | 1 <= k < n ensures IonName('y', k) in d && d[IonName('y', k)] == m[n - 2 + k] {
      assert ys[k - 1] == m[n - 2 + k];
    }
  }

  /** The b map and the y map share no key: their union looks each name up
      in its own map. */
  lemma IonMapsJoin(bs: seq<real>, ys: seq<real>)
    requires |bs| == |ys|
    ensures var d := IonMap('b', bs) + IonMap('y', ys);
      && (forall k :: 1 <= k <= |bs| ==> IonName('b', k) in d && d[IonName('b', k)] == bs[k - 1])
      && (forall k :: 1 <= k <= |ys| ==> IonName('y', k) in d && d[IonName('y', k)] == ys[k - 1])
      && (forall key :: key in d ==> exists k :: 1 <= k <= |bs| && (key == IonName('b', k) || key == IonName('y', k)))
  {
    var bm, ym := IonMap('b', bs), IonMap('y', ys);
    IonMapLookup('b', bs);
    IonMapLookup('y', ys);
    forall k | 1 <= k <= |bs| ensures IonName('b', k) !in ym {
      if IonName('b', k) in ym {
        var l :| 1 <= l <= |ys| && IonName('b', k) == IonName('y', l);
        IonNameInjective('b', k, 'y', l);
      }
    }
  }

  /** The number of b (and of y) ions: n - 1, and none for an empty list. */
  function IonCount(tokens: seq<string>): nat
  {
    if tokens == [] then 0 else |tokens| - 1
  }

  /** The b loop of get_frag_dict. */
  method BIonDict(tokens: seq<string>, md: MassTable) returns (r: Result<map<string, real>>)
    requires "Proton" in md
    ensures r.Ok? <==> Known(md, tokens[..IonCount(tokens)])
    ensures r.Ok? ==> r.value == IonMap('b', BIons(tokens, md, IonCount(tokens)))
  {
    var c := IonCount(tokens);
    var d: map<string, real> := map[];
    var fragM := md["Proton"];
    for i := 0 to c
      invariant Known(md, tokens[..i])
      invariant fragM == md["Proton"] + Sum(md, tokens[..i])
      invariant d == IonMap('b', BIons(tokens, md, i))
    {
      if tokens[i] !in md {
        assert tokens[..c][i] == tokens[i];
        return Err(KeyError);
      }
      BIonsStep(tokens, md, i);
      fragM := fragM + md[tokens[i]];
      IonMapSnoc('b', BIons(tokens, md, i), fragM);
      d := d[IonName('b', i + 1) := fragM];
    }
    return Ok(d);
  }

  /** The y loop of get_frag_dict. */
  method YIonDict(tokens: seq<string>, md: MassTable) returns (r: Result<map<string, real>>)
    requires "Proton" in md && "H2O" in md
    ensures r.Ok? <==> Known(md, tokens[|tokens| - IonCount(tokens)..])
    ensures r.Ok? ==> r.value == IonMap('y', YIons(tokens, md, IonCount(tokens)))
  {
    var n, c := |tokens|, IonCount(tokens);
    var y: map<string, real> := map[];
    var fragM := md["Proton"] + md["H2O"];
    for j := 0 to c
      invariant Known(md, tokens[n - j..])
      invariant fragM == md["Proton"] + md["H2O"] + Sum(md, tokens[n - j..])
      invariant y == IonMap('y', YIons(tokens, md, j))
    {
      var t := tokens[n - 1 - j];
      if t !in md {
        assert tokens[n - c..][c - 1 - j] == t;
        return Err(KeyError);
      }
      YIonsStep(tokens, md, j);
      fragM := fragM + md[t];
      IonMapSnoc('y', YIons(tokens, md, j), fragM);
      y := y[IonName('y', j + 1) := fragM];
    }
    return Ok(y);
  }

  /** get_frag_dict: the two loops, the b entries then the y entries. */
  method GetFragDict(tokens: seq<string>, md: MassTable) returns (r: Result<map<string, real>>)
    ensures r == FragDict(tokens, md)
  {
    var n := |tokens|;
    if "Proton" !in md {
      return Err(KeyError);
    }
    var b := BIonDict(tokens, md);
    if b.Err? {
      return Err(KeyError);
    }
    if "H2O" !in md {
      return Err(KeyError);
    }
    var y := YIonDict(tokens, md);
    if y.Err? {
      return Err(KeyError);
    }
    if n == 0 {
      return Ok(map[]);
    }
    if n >= 2 {
      FragKeysAll(tokens, md);
      assert FragMass(tokens, md).value.masses[..n - 1] == BIons(tokens, md, n - 1);
      assert FragMass(tokens, md).value.masses[n - 1..] == YIons(tokens, md, n - 1);
    }
    return Ok(b.value + y.value);
  }
}
