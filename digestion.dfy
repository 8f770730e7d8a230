/** The digestion engine: cutting a protein sequence at the protease's cleavage
    sites (`cleave_sequence`) and joining runs of fragments into missed-cleavage
    peptides (`get_missed_cleavages`). The protease's regular expression is not
    modelled; its `finditer` match starts are an input. */
module Digestion {
  import opened Outcomes
  import opened Seqs

  /** What `re.finditer(pattern, s)` can yield as match starts on a sequence of
      length n: strictly increasing positions inside the sequence. */
  predicate ValidSites(starts: seq<nat>, n: nat)
  {
    && (forall i :: 0 <= i < |starts| ==> starts[i] < n)
    && (forall i, j :: 0 <= i < j < |starts| ==> starts[i] < starts[j])
  }

  /** A protease: the match starts of its pattern on every string. */
  type Protease = string -> seq<nat>

  ghost predicate ValidProtease(sites: Protease)
  {
    forall s: string :: ValidSites(sites(s), |s|)
  }

  /** Non-decreasing cut positions inside a sequence of length n. */
  predicate ValidCuts(cuts: seq<nat>, n: nat)
  {
    && (forall i :: 0 <= i < |cuts| ==> cuts[i] <= n)
    && (forall i, j :: 0 <= i <= j < |cuts| ==> cuts[i] <= cuts[j])
  }

  /** `cutpos`: 0, every match start + 1, then the sequence length. */
  function CutPositions(starts: seq<nat>, n: nat): (cuts: seq<nat>)
    requires ValidSites(starts, n)
    ensures |cuts| == |starts| + 2 && cuts[0] == 0 && cuts[|cuts| - 1] == n
    ensures ValidCuts(cuts, n)
  {
    [0] + seq(|starts|, i requires 0 <= i < |starts| => starts[i] + 1) + [n]
  }

  /** The pieces of s between consecutive cut positions. */
  function Fragments(s: string, cuts: seq<nat>): (r: seq<string>)
    requires ValidCuts(cuts, |s|)
    ensures |cuts| >= 1 ==> |r| == |cuts| - 1
  {
    if |cuts| < 2 then []
    else seq(|cuts| - 1, i requires 0 <= i < |cuts| - 1 => s[cuts[i]..cuts[i + 1]])
  }

  /** Dropping the last cut drops the last fragment. */
  lemma FragmentsInit(s: string, cuts: seq<nat>)
    requires ValidCuts(cuts, |s|) && |cuts| >= 2
    ensures ValidCuts(cuts[..|cuts| - 1], |s|)
    ensures Fragments(s, cuts) == Fragments(s, cuts[..|cuts| - 1]) + [s[cuts[|cuts| - 2]..cuts[|cuts| - 1]]]
  {
    var init := cuts[..|cuts| - 1];
    var whole, part := Fragments(s, cuts), Fragments(s, init);
    assert |whole| == |part| + 1;
    forall i | 0 <= i < |part| ensures whole[i] == part[i] {
      assert init[i] == cuts[i] && init[i + 1] == cuts[i + 1];
    }
  }

  /** The fragments between cuts[0] and the last cut join back to that stretch of s. */
  lemma {:induction false} FragmentsJoin(s: string, cuts: seq<nat>)
    requires ValidCuts(cuts, |s|) && |cuts| >= 1
    ensures Flatten(Fragments(s, cuts)) == s[cuts[0]..cuts[|cuts| - 1]]
  {
    var m := |cuts|;
    if m >= 2 {
      var init := cuts[..m - 1];
      FragmentsInit(s, cuts);
      FragmentsJoin(s, init);
      assert init[0] == cuts[0] && init[m - 2] == cuts[m - 2];
      JoinStep(s, cuts[0], cuts[m - 2], cuts[m - 1], Fragments(s, init));
    }
  }

  /** Joining one more adjacent piece extends the joined stretch. */
  lemma JoinStep(s: string, c0: nat, c1: nat, c2: nat, prev: seq<string>)
    requires c0 <= c1 <= c2 <= |s| && Flatten(prev) == s[c0..c1]
    ensures Flatten(prev + [s[c1..c2]]) == s[c0..c2]
  {
    FlattenSnoc(prev, s[c1..c2]);
    assert s[c0..c2] == s[c0..c1] + s[c1..c2];
  }

  /** The cuts a..b are themselves valid cuts, and their fragments are
      fragments a..b of the whole. */
  lemma FragmentsSlice(s: string, cuts: seq<nat>, a: nat, b: nat)
    requires ValidCuts(cuts, |s|) && a <= b < |cuts|
    ensures ValidCuts(cuts[a..b + 1], |s|)
    ensures Fragments(s, cuts)[a..b] == Fragments(s, cuts[a..b + 1])
  {
    var sub := cuts[a..b + 1];
    assert ValidCuts(sub, |s|) by {
      forall i, j | 0 <= i <= j < |sub| ensures sub[i] <= sub[j] {
        assert sub[i] == cuts[a + i] && sub[j] == cuts[a + j];
      }
    }
    var whole, part := Fragments(s, cuts), Fragments(s, sub);
    assert |part| == b - a;
    forall i | 0 <= i < b - a ensures whole[a + i] == part[i] {
      assert sub[i] == cuts[a + i] && sub[i + 1] == cuts[a + i + 1];
    }
  }

  /** Any run of consecutive fragments joins to a contiguous substring of s. */
  lemma FragmentsWindow(s: string, cuts: seq<nat>, a: nat, b: nat)
    requires ValidCuts(cuts, |s|) && a <= b < |cuts|
    ensures Flatten(Fragments(s, cuts)[a..b]) == s[cuts[a]..cuts[b]]
  {
    FragmentsSlice(s, cuts, a, b);
    FragmentsJoin(s, cuts[a..b + 1]);
  }

  /** `base_sequences` of cleave_sequence. */
  function BaseFragments(s: string, starts: seq<nat>): seq<string>
    requires ValidSites(starts, |s|)
  {
    Fragments(s, CutPositions(starts, |s|))
  }

  /** The base fragments, one more than the matches, concatenate back to the input. */
  lemma BaseFragmentsJoin(s: string, starts: seq<nat>)
    requires ValidSites(starts, |s|)
    ensures |BaseFragments(s, starts)| == |starts| + 1
    ensures Flatten(BaseFragments(s, starts)) == s
  {
    FragmentsJoin(s, CutPositions(starts, |s|));
  }

  /** What get_missed_cleavages(base, n) returns: max(0, |base| - n) strings, the
      first empty (its slice `base[-1:n]` is empty), the k-th the join of the n + 1
      fragments base[k-1..k+n-1]; the window ending on the last fragment is never
      produced. */
  function MissedCleavages(base: seq<string>, n: nat): (r: seq<string>)
  {
    seq(if |base| > n then |base| - n else 0,
        k requires 0 <= k && k + n < |base| => if k == 0 then "" else Flatten(base[k - 1..k + n]))
  }

  /** get_missed_cleavages: the append loop with Python's slice `sequences[k-1:k+n]`. */
  method GetMissedCleavages(sequences: seq<string>, n: nat) returns (missed: seq<string>)
    ensures missed == MissedCleavages(sequences, n)
  {
    missed := [];
    var k := 0;
    while k < |sequences| - n
      invariant 0 <= k && (k <= |sequences| - n || k == 0)
      invariant missed == MissedCleavages(sequences, n)[..k]
    {
      var window := PySlice(sequences, k - 1, k + n);
      assert k == 0 ==> window == [];
      assert k > 0 ==> window == sequences[k - 1..k + n];
      missed := missed + [Flatten(window)];
      k := k + 1;
    }
  }

  /** `sequences.extend(get_missed_cleavages(base, i))` for i = 1..m. */
  function AllMissed(base: seq<string>, m: nat): seq<string>
  {
    if m == 0 then [] else AllMissed(base, m - 1) + MissedCleavages(base, m)
  }

  /** The final comprehension: keep strings with min_length <= len <= max_length. */
  function LengthFilter(ps: seq<string>, minLength: int, maxLength: int): (r: seq<string>)
    ensures forall p :: p in r ==> p in ps && minLength <= |p| <= maxLength
    ensures forall p :: p in ps && minLength <= |p| <= maxLength ==> p in r
  {
    if ps == [] then []
    else LengthFilter(ps[..|ps| - 1], minLength, maxLength)
         + (var p := ps[|ps| - 1]; if minLength <= |p| <= maxLength then [p] else [])
  }

  /** cleave_sequence for a sequence whose protease match starts are `starts`. */
  function CleaveSequence(s: string, starts: seq<nat>, missed: nat, minLength: int, maxLength: int): seq<string>
    requires ValidSites(starts, |s|)
  {
    var base := BaseFragments(s, starts);
    LengthFilter(base + AllMissed(base, missed), minLength, maxLength)
  }

  /** cleave_sequence as written: the base fragments, extended once per missed
      cleavage count, then filtered by length. */
  method Cleave(s: string, starts: seq<nat>, missed: nat, minLength: int, maxLength: int) returns (r: seq<string>)
    requires ValidSites(starts, |s|)
    ensures r == CleaveSequence(s, starts, missed, minLength, maxLength)
  {
    var base := BaseFragments(s, starts);
    var sequences := base;
    for i := 1 to missed + 1
      invariant sequences == base + AllMissed(base, i - 1)
    {
      var more := GetMissedCleavages(base, i);
      assert AllMissed(base, i) == AllMissed(base, i - 1) + more;
      sequences := sequences + more;
      assert sequences == base + AllMissed(base, i);
    }
    assert sequences == base + AllMissed(base, missed);
    r := LengthFilter(sequences, minLength, maxLength);
  }

  /** s[a..b] for some bounds: p is a contiguous piece of s. */
  predicate IsSubstring(p: string, s: string)
  {
    exists a, b :: 0 <= a <= b <= |s| && p == s[a..b]
  }

  lemma {:induction false} AllMissedSubstrings(s: string, starts: seq<nat>, m: nat)
    requires ValidSites(starts, |s|)
    ensures forall p :: p in AllMissed(BaseFragments(s, starts), m) ==> IsSubstring(p, s)
  {
    if m > 0 {
      AllMissedSubstrings(s, starts, m - 1);
      var base := BaseFragments(s, starts);
      var cuts := CutPositions(starts, |s|);
      forall p | p in MissedCleavages(base, m) ensures IsSubstring(p, s) {
        var k :| 0 <= k < |MissedCleavages(base, m)| && MissedCleavages(base, m)[k] == p;
        if k == 0 {
          assert p == s[0..0];
        } else {
          FragmentsWindow(s, cuts, k - 1, k + m);
          assert p == s[cuts[k - 1]..cuts[k + m]];
        }
      }
    }
  }

  /** Every peptide cleave_sequence returns is a piece of the input whose length is
      within [min_length, max_length]. */
  lemma CleaveSequenceSound(s: string, starts: seq<nat>, missed: nat, minLength: int, maxLength: int)
    requires ValidSites(starts, |s|)
    ensures forall p :: p in CleaveSequence(s, starts, missed, minLength, maxLength) ==>
      IsSubstring(p, s) && minLength <= |p| <= maxLength
  {
    var base := BaseFragments(s, starts);
    var cuts := CutPositions(starts, |s|);
    AllMissedSubstrings(s, starts, missed);
    forall p | p in base ensures IsSubstring(p, s) {
      var k :| 0 <= k < |base| && base[k] == p;
      assert p == s[cuts[k]..cuts[k + 1]];
    }
  }

  /** With no missed cleavages the result is the base fragments within the length
      bounds, in order. */
  lemma CleaveSequenceNoMissed(s: string, starts: seq<nat>, minLength: int, maxLength: int)
    ensures ValidSites(starts, |s|) ==>
      CleaveSequence(s, starts, 0, minLength, maxLength) == LengthFilter(BaseFragments(s, starts), minLength, maxLength)
  {
    if ValidSites(starts, |s|) {
      assert BaseFragments(s, starts) + [] == BaseFragments(s, starts);
    }
  }

  /** count_missed_cleavages: the number of pattern matches, one less than the
      number of base fragments. */
  function CountMissedCleavages(s: string, starts: seq<nat>): (n: nat)
    requires ValidSites(starts, |s|)
    ensures n + 1 == |BaseFragments(s, starts)|
  {
    BaseFragmentsJoin(s, starts);
    |starts|
  }

  /** count_internal_cleavages: 0 when the pattern matches the last residue followed
      by '_', 1 otherwise; an empty sequence raises IndexError. */
  function CountInternalCleavages(s: string, sites: Protease): (r: Result<nat>)
    ensures r.Ok? <==> s != []
    ensures r.Ok? ==> r.value <= 1 && (r.value == 0 <==> sites([s[|s| - 1]] + "_") != [])
  {
    if s == [] then Err(IndexError)
    else if sites([s[|s| - 1]] + "_") != [] then Ok(0) else Ok(1)
  }
}
