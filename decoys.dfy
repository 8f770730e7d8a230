/** The decoy generator: reversed (or pseudo-reversed) token lists with optional
    A/L and terminal K/R swaps (`get_decoy_sequence`, `swap_AL`, `swap_KR`,
    `get_decoys`, `add_decoy_tag`). */
module Decoys {
  import opened Outcomes
  import opened Seqs
  import opened Text
  import opened Parsing

  /** swap_AL on a token list: scanning left to right, an "A" or "L" token trades
      places with its right neighbour, which is then skipped. */
  function SwappedAL(s: seq<string>): seq<string>
  {
    if |s| < 2 then s
    else if s[0] == "A" || s[0] == "L" then [s[1], s[0]] + SwappedAL(s[2..])
    else [s[0]] + SwappedAL(s[1..])
  }

  lemma SwapPrefix(done: seq<string>, s: seq<string>, i: nat)
    requires |done| == i && i + 1 < |s|
    ensures (done + s[i..])[i := s[i + 1]][i + 1 := s[i]] == (done + [s[i + 1], s[i]]) + s[i + 2..]
  {
  }

  lemma KeepPrefix(done: seq<string>, s: seq<string>, i: nat)
    requires i < |s|
    ensures done + s[i..] == (done + [s[i]]) + s[i + 1..]
  {
    assert s[i..] == [s[i]] + s[i + 1..];
  }

  /** The loop invariant of swap_AL carried past position i: an "A" or "L"
      there trades with its neighbour, any other token stays. */
  lemma SwapALInvariant(done: seq<string>, s: seq<string>, i: nat)
    requires |done| == i && i + 1 < |s| && done + SwappedAL(s[i..]) == SwappedAL(s)
    ensures s[i] == "A" || s[i] == "L" ==> (done + [s[i + 1], s[i]]) + SwappedAL(s[i + 2..]) == SwappedAL(s)
    ensures s[i] != "A" && s[i] != "L" ==> (done + [s[i]]) + SwappedAL(s[i + 1..]) == SwappedAL(s)
  {
    var t := s[i..];
    assert t[0] == s[i] && t[1] == s[i + 1];
    if s[i] == "A" || s[i] == "L" {
      var rest := SwappedAL(s[i + 2..]);
      assert t[2..] == s[i + 2..];
      assert SwappedAL(t) == [s[i + 1], s[i]] + rest;
      assert done + ([s[i + 1], s[i]] + rest) == (done + [s[i + 1], s[i]]) + rest;
    } else {
      var rest := SwappedAL(s[i + 1..]);
      assert t[1..] == s[i + 1..];
      assert SwappedAL(t) == [s[i]] + rest;
      assert done + ([s[i]] + rest) == (done + [s[i]]) + rest;
    }
  }

  /** swap_AL: the in-place while loop over the token list. */
  method SwapAL(a: array<string>)
    modifies a
    ensures a[..] == SwappedAL(old(a[..]))
  {
    ghost var s := a[..];
    ghost var done: seq<string> := [];
    var i := 0;
    while i < a.Length - 1
      invariant 0 <= i <= a.Length && |done| == i
      invariant a[..] == done + s[i..]
      invariant done + SwappedAL(s[i..]) == SwappedAL(s)
    {
      SwapALInvariant(done, s, i);
      assert a[i] == s[i] && a[i + 1] == s[i + 1];
      if a[i] == "A" || a[i] == "L" {
        ghost var before := a[..];
        var x := a[i];
        a[i] := a[i + 1];
        a[i + 1] := x;
        assert a[..] == before[i := s[i + 1]][i + 1 := s[i]];
        SwapPrefix(done, s, i);
        done := done + [s[i + 1], s[i]];
        i := i + 2;
      } else {
        KeepPrefix(done, s, i);
        done := done + [s[i]];
        i := i + 1;
      }
    }
    assert |s[i..]| < 2;
  }

  /** swap_KR on a token list: a last token "K" becomes "R" and vice versa. */
  function SwappedKR(s: seq<string>): seq<string>
  {
    if s == [] then s
    else if s[|s| - 1] == "K" then s[..|s| - 1] + ["R"]
    else if s[|s| - 1] == "R" then s[..|s| - 1] + ["K"]
    else s
  }

  /** swap_KR: changes the last list element in place; an empty list raises. */
  method SwapKR(a: array<string>) returns (ok: bool)
    modifies a
    ensures ok == (a.Length > 0)
    ensures a[..] == SwappedKR(old(a[..]))
  {
    if a.Length == 0 {
      return false;
    }
    var last := a.Length - 1;
    if a[last] == "K" {
      a[last] := "R";
    } else if a[last] == "R" {
      a[last] := "K";
    }
    assert a[..] == old(a[..])[..last] + [a[last]];
    return true;
  }

  /** swap_AL keeps the tokens. */
  lemma {:induction false} SwappedALPermutes(s: seq<string>)
    ensures |SwappedAL(s)| == |s|
    ensures multiset(SwappedAL(s)) == multiset(s)
  {
    if |s| >= 2 {
      if s[0] == "A" || s[0] == "L" {
        var rest := s[2..];
        SwappedALPermutes(rest);
        assert SwappedAL(s) == [s[1], s[0]] + SwappedAL(rest);
        assert s == [s[0], s[1]] + rest;
        assert multiset([s[1], s[0]]) == multiset([s[0], s[1]]);
      } else {
        var rest := s[1..];
        SwappedALPermutes(rest);
        assert SwappedAL(s) == [s[0]] + SwappedAL(rest);
        assert s == [s[0]] + rest;
      }
    }
  }

  lemma {:induction false} SwappedALLength(s: seq<string>)
    ensures |SwappedAL(s)| == |s|
  {
    if |s| >= 2 {
      if s[0] == "A" || s[0] == "L" {
        SwappedALLength(s[2..]);
      } else {
        SwappedALLength(s[1..]);
      }
    }
  }

  /** Under swap_AL every token moves by at most one place. */
  lemma {:induction false} SwappedALLocal(s: seq<string>, i: nat)
    requires i < |s|
    ensures |SwappedAL(s)| == |s|
    ensures SwappedAL(s)[i] == s[i] || (i > 0 && SwappedAL(s)[i] == s[i - 1]) || (i + 1 < |s| && SwappedAL(s)[i] == s[i + 1])
  {
    SwappedALLength(s);
    if |s| >= 2 {
      if s[0] == "A" || s[0] == "L" {
        var rest := s[2..];
        assert SwappedAL(s) == [s[1], s[0]] + SwappedAL(rest);
        if i >= 2 {
          SwappedALLocal(rest, i - 2);
          assert SwappedAL(s)[i] == SwappedAL(rest)[i - 2];
          assert rest[i - 2] == s[i];
          assert i - 2 > 0 ==> rest[i - 3] == s[i - 1];
          assert i - 1 < |rest| ==> rest[i - 1] == s[i + 1];
        }
      } else if i >= 1 {
        var rest := s[1..];
        assert SwappedAL(s) == [s[0]] + SwappedAL(rest);
        SwappedALLocal(rest, i - 1);
        assert SwappedAL(s)[i] == SwappedAL(rest)[i - 1];
        assert rest[i - 1] == s[i];
        assert i - 1 > 0 ==> rest[i - 2] == s[i - 1];
        assert i < |rest| ==> rest[i] == s[i + 1];
      }
    }
  }

  /** A token list without "A" and "L" tokens is left as it is. */
  lemma {:induction false} SwappedALNoSwap(s: seq<string>)
    requires "A" !in s && "L" !in s
    ensures SwappedAL(s) == s
  {
    if |s| >= 2 {
      assert "A" !in s[1..] && "L" !in s[1..];
      SwappedALNoSwap(s[1..]);
    }
  }

  /** swap_KR changes only the last token, only when it is exactly "K" or "R", and
      undoes itself. */
  lemma SwappedKRProperties(s: seq<string>)
    ensures |SwappedKR(s)| == |s|
    ensures s != [] ==> SwappedKR(s)[..|s| - 1] == s[..|s| - 1]
    ensures s != [] ==> (SwappedKR(s)[|s| - 1] != s[|s| - 1] <==> s[|s| - 1] in {"K", "R"})
    ensures SwappedKR(SwappedKR(s)) == s
  {
    if s != [] {
      var n := |s|;
      var r := SwappedKR(s);
      assert r[..n - 1] == s[..n - 1];
      if s[n - 1] in {"K", "R"} {
        assert SwappedKR(r) == r[..n - 1] + [s[n - 1]];
        assert s == s[..n - 1] + [s[n - 1]];
      }
    }
  }

  /** `pep[:-1][::-1]` followed by `pep[-1]`: all tokens but the last reversed. */
  function PseudoReverse(pep: seq<string>): seq<string>
    requires pep != []
  {
    Reverse(pep[..|pep| - 1]) + [pep[|pep| - 1]]
  }

  /** The token list get_decoy_sequence joins: reversal or pseudo-reversal, then
      the optional swaps. An empty token list raises IndexError under
      pseudo_reverse (at `pep[-1]`) and under KR_swap (at `peptide[-1]`). */
  function DecoyTokens(pep: seq<string>, pseudoReverse: bool, alSwap: bool, krSwap: bool): Result<seq<string>>
  {
    var rev :- if pseudoReverse then (if pep == [] then Err(IndexError) else Ok(PseudoReverse(pep)))
               else Ok(Reverse(pep));
    var swapped := if alSwap then SwappedAL(rev) else rev;
    if krSwap && swapped == [] then Err(IndexError)
    else Ok(if krSwap then SwappedKR(swapped) else swapped)
  }

  /** What get_decoy_sequence returns for a peptide. */
  function DecoySequence(peptide: string, pseudoReverse: bool, alSwap: bool, krSwap: bool): Result<string>
  {
    var tokens :- DecoyTokens(Tokenize(peptide), pseudoReverse, alSwap, krSwap);
    Ok(Flatten(tokens))
  }

  /** get_decoy_sequence: parse, reverse, swap in place, join. */
  method GetDecoySequence(peptide: string, pseudoReverse: bool, alSwap: bool, krSwap: bool) returns (r: Result<string>)
    ensures r == DecoySequence(peptide, pseudoReverse, alSwap, krSwap)
  {
    var pep := Parse(peptide);
    var rev: seq<string>;
    if pseudoReverse {
      if |pep| == 0 {
        return Err(IndexError);
      }
      rev := PseudoReverse(pep);
    } else {
      rev := Reverse(pep);
    }
    var a := new string[|rev|](i requires 0 <= i < |rev| => rev[i]);
    assert a[..] == rev;
    if alSwap {
      SwapAL(a);
    }
    if krSwap {
      var ok := SwapKR(a);
      if !ok {
        return Err(IndexError);
      }
    }
    return Ok(Flatten(a[..]));
  }

  /** get_decoys: one decoy per peptide, in order; the first failure is raised. */
  function Decoys(peptides: seq<string>, pseudoReverse: bool, alSwap: bool, krSwap: bool): (r: Result<seq<string>>)
    ensures r.Ok? ==> |r.value| == |peptides|
    ensures r.Ok? ==> forall i :: 0 <= i < |peptides| ==>
      DecoySequence(peptides[i], pseudoReverse, alSwap, krSwap) == Ok(r.value[i])
  {
    if peptides == [] then Ok([])
    else
      var init :- Decoys(peptides[..|peptides| - 1], pseudoReverse, alSwap, krSwap);
      var d :- DecoySequence(peptides[|peptides| - 1], pseudoReverse, alSwap, krSwap);
      Ok(init + [d])
  }

  /** The mark of a non-target entry. */
  const DecoyTag: string := "_decoy"

  /** add_decoy_tag. */
  function AddDecoyTag(peptides: seq<string>): (r: seq<string>)
    ensures |r| == |peptides|
  {
    seq(|peptides|, i requires 0 <= i < |peptides| => peptides[i] + DecoyTag)
  }

  /** A tagged decoy has the tokens of the untagged one. */
  lemma AddDecoyTagTokens(peptides: seq<string>, i: nat)
    requires i < |peptides| && '_' !in peptides[i]
    ensures Tokenize(AddDecoyTag(peptides)[i]) == Tokenize(peptides[i])
  {
    assert AddDecoyTag(peptides)[i] == peptides[i] + ['_'] + "decoy";
    TokenizeTagged(peptides[i], "decoy");
  }

  lemma SwappedALElems(s: seq<string>)
    ensures forall t :: t in SwappedAL(s) ==> t in s
  {
    SwappedALPermutes(s);
    forall t | t in SwappedAL(s) ensures t in s {
      assert t in multiset(SwappedAL(s));
    }
  }

  lemma ReverseElems(s: seq<string>)
    ensures forall t :: t in Reverse(s) ==> t in s
  {
    forall t | t in Reverse(s) ensures t in s {
      var k :| 0 <= k < |Reverse(s)| && Reverse(s)[k] == t;
      assert t == s[|s| - 1 - k];
    }
  }

  lemma PseudoReverseElems(s: seq<string>)
    requires s != []
    ensures forall t :: t in PseudoReverse(s) ==> t in s
  {
    ReverseElems(s[..|s| - 1]);
  }

  lemma SwappedKRElems(s: seq<string>)
    ensures forall t :: t in SwappedKR(s) ==> t in s || t == "K" || t == "R"
  {
  }

  /** Every decoy token is a token of the peptide, or the "K"/"R" put in by KR_swap. */
  lemma DecoyTokensElems(pep: seq<string>, pseudoReverse: bool, alSwap: bool, krSwap: bool)
    requires DecoyTokens(pep, pseudoReverse, alSwap, krSwap).Ok?
    ensures forall t :: t in DecoyTokens(pep, pseudoReverse, alSwap, krSwap).value ==> t in pep || t == "K" || t == "R"
  {
    var rev := if pseudoReverse then PseudoReverse(pep) else Reverse(pep);
    if pseudoReverse { PseudoReverseElems(pep); } else { ReverseElems(pep); }
    var swapped := if alSwap then SwappedAL(rev) else rev;
    SwappedALElems(rev);
    SwappedKRElems(swapped);
  }

  lemma KRToken()
    ensures WellFormedToken("K") && WellFormedToken("R")
  {
    assert "K"[..0] == [] && "R"[..0] == [];
  }

  /** The decoy's own tokens are the decoy token list: parsing the joined decoy
      gives back exactly the reversed and swapped tokens. */
  lemma DecoySequenceTokens(peptide: string, pseudoReverse: bool, alSwap: bool, krSwap: bool)
    requires DecoySequence(peptide, pseudoReverse, alSwap, krSwap).Ok?
    ensures Tokenize(DecoySequence(peptide, pseudoReverse, alSwap, krSwap).value)
         == DecoyTokens(Tokenize(peptide), pseudoReverse, alSwap, krSwap).value
  {
    var pep := Tokenize(peptide);
    var ts := DecoyTokens(pep, pseudoReverse, alSwap, krSwap).value;
    TokenizeShape(peptide);
    DecoyTokensElems(pep, pseudoReverse, alSwap, krSwap);
    KRToken();
    TokenizeFlatten(ts);
  }

  lemma PseudoReverseTwice(pep: seq<string>)
    requires pep != []
    ensures PseudoReverse(PseudoReverse(pep)) == pep
  {
    var n := |pep|;
    var q := PseudoReverse(pep);
    assert q[..n - 1] == Reverse(pep[..n - 1]);
    ReverseReverse(pep[..n - 1]);
    assert pep == pep[..n - 1] + [pep[n - 1]];
  }

  lemma PseudoReverseSwappedKR(pep: seq<string>)
    requires pep != []
    ensures SwappedKR(pep) != [] && PseudoReverse(SwappedKR(pep)) == SwappedKR(PseudoReverse(pep))
  {
    var n := |pep|;
    SwappedKRProperties(pep);
    assert SwappedKR(pep)[..n - 1] == pep[..n - 1];
  }

  /** get_decoy_sequence undoes itself on a '_'-free peptide ending in a residue
      letter, without AL_swap and with KR_swap only under pseudo_reverse (both
      keep the C-terminal anchor). */
  lemma DecoyInvolution(p: string, pseudoReverse: bool, krSwap: bool)
    requires '_' !in p && p != [] && IsUpper(p[|p| - 1])
    requires krSwap ==> pseudoReverse
    ensures DecoySequence(p, pseudoReverse, false, krSwap).Ok?
    ensures DecoySequence(DecoySequence(p, pseudoReverse, false, krSwap).value, pseudoReverse, false, krSwap) == Ok(p)
  {
    var pep := Tokenize(p);
    TokenizeWhole(p);
    var d := DecoyTokens(pep, pseudoReverse, false, krSwap);
    assert d.Ok?;
    var q := Flatten(d.value);
    DecoySequenceTokens(p, pseudoReverse, false, krSwap);
    assert Tokenize(q) == d.value;
    if pseudoReverse {
      PseudoReverseTwice(pep);
      if krSwap {
        var x := PseudoReverse(pep);
        SwappedKRProperties(x);
        PseudoReverseSwappedKR(x);
        SwappedKRProperties(PseudoReverse(x));
        assert d.value == SwappedKR(x);
        assert DecoyTokens(d.value, true, false, true) == Ok(SwappedKR(PseudoReverse(SwappedKR(x))));
      }
    } else {
      ReverseReverse(pep);
    }
  }

  lemma FlattenSingles(ts: seq<string>, s: string)
    requires |ts| == |s| && forall i :: 0 <= i < |ts| ==> ts[i] == [s[i]]
    ensures Flatten(ts) == s
  {
    if ts != [] {
      var n := |ts|;
      FlattenSingles(ts[..n - 1], s[..n - 1]);
      assert s == s[..n - 1] + [s[n - 1]];
    }
  }

  /** A peptide of unmodified residues, each an upper-case letter, parses to
      one single-letter token per residue. */
  lemma TokenizeUpper(s: string)
    requires forall i :: 0 <= i < |s| ==> IsUpper(s[i])
    ensures Tokenize(s) == seq(|s|, i requires 0 <= i < |s| => [s[i]])
  {
    assert '_' !in s;
    TokensFromUpper(s);
  }

  lemma {:induction false} TokensFromUpper(s: string)
    requires forall i :: 0 <= i < |s| ==> IsUpper(s[i])
    ensures TokensFrom([], s) == seq(|s|, i requires 0 <= i < |s| => [s[i]])
  {
    if s != [] {
      TokensFromUpper(s[1..]);
      assert [] + [s[0]] == [s[0]];
    }
  }

  /** The single-letter token lists of s and of its reversal. */
  lemma ReverseSingles(s: string, ts: seq<string>)
    requires ts == seq(|s|, i requires 0 <= i < |s| => [s[i]])
    ensures Flatten(Reverse(ts)) == Reverse(s)
  {
    var rs, r := Reverse(ts), Reverse(s);
    forall i | 0 <= i < |rs| ensures rs[i] == [r[i]] {
      assert rs[i] == ts[|s| - 1 - i];
    }
    FlattenSingles(rs, r);
  }

  lemma PseudoReverseSingles(s: string, ts: seq<string>)
    requires s != [] && ts == seq(|s|, i requires 0 <= i < |s| => [s[i]])
    ensures Flatten(PseudoReverse(ts)) == Reverse(s[..|s| - 1]) + [s[|s| - 1]]
  {
    var n := |s|;
    var ps := PseudoReverse(ts);
    var d := Reverse(s[..n - 1]) + [s[n - 1]];
    forall i | 0 <= i < |ps| ensures ps[i] == [d[i]] {
      if i < n - 1 {
        assert ps[i] == ts[..n - 1][n - 2 - i] == ts[n - 2 - i];
        assert d[i] == s[..n - 1][n - 2 - i];
      }
    }
    FlattenSingles(ps, d);
  }

  /** On such a peptide, the pseudo-reversed decoy without swaps reverses all
      residues but the last, which stays in place ("ABCDEK" gives "EDCBAK");
      the plain reversal reverses them all. An empty peptide has no decoy under
      pseudo-reversal. */
  lemma DecoyUpper(s: string)
    requires forall i :: 0 <= i < |s| ==> IsUpper(s[i])
    ensures s == [] ==> DecoySequence(s, true, false, false) == Err(IndexError)
    ensures s != [] ==> DecoySequence(s, true, false, false) == Ok(Reverse(s[..|s| - 1]) + [s[|s| - 1]])
    ensures DecoySequence(s, false, false, false) == Ok(Reverse(s))
  {
    TokenizeUpper(s);
    ReverseSingles(s, Tokenize(s));
    if s != [] {
      PseudoReverseSingles(s, Tokenize(s));
    }
  }
}
