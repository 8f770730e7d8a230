/** The peptide tokeniser (`parse`): a peptide string becomes its residue tokens,
    each the modification characters written before a residue plus the
    upper-case residue letter itself. */
module Parsing {
  import opened Seqs
  import opened Text

  /** `peptide.split("_")[0]`: everything before the first '_'. */
  function BeforeUnderscore(p: string): (r: string)
    ensures '_' !in r
  {
    if p == [] || p[0] == '_' then [] else [p[0]] + BeforeUnderscore(p[1..])
  }

  /** The string parse works on: the tag from the first '_' on is discarded. */
  function StripTag(p: string): string
  {
    if '_' in p then BeforeUnderscore(p) else p
  }

  /** The tokens the loop of parse still emits from s while `string` holds `pending`. */
  function TokensFrom(pending: string, s: string): seq<string>
    decreases |s|
  {
    if s == [] then []
    else if IsUpper(s[0]) then [pending + [s[0]]] + TokensFrom([], s[1..])
    else TokensFrom(pending + [s[0]], s[1..])
  }

  /** What `string` holds when the loop of parse ends: the characters after the
      last upper-case one, which parse drops. */
  function Residue(pending: string, s: string): string
    decreases |s|
  {
    if s == [] then pending
    else if IsUpper(s[0]) then Residue([], s[1..])
    else Residue(pending + [s[0]], s[1..])
  }

  /** The token list parse returns. */
  function Tokenize(peptide: string): seq<string>
  {
    TokensFrom([], StripTag(peptide))
  }

  /** parse: the character loop that closes a token at every upper-case character. */
  method Parse(peptide: string) returns (parsed: seq<string>)
    ensures parsed == Tokenize(peptide)
  {
    var p := peptide;
    if '_' in p {
      p := BeforeUnderscore(p);
    }
    parsed := [];
    var pending := "";
    for i := 0 to |p|
      invariant parsed + TokensFrom(pending, p[i..]) == TokensFrom([], p)
    {
      assert p[i..][1..] == p[i + 1..];
      pending := pending + [p[i]];
      if IsUpper(p[i]) {
        parsed := parsed + [pending];
        pending := "";
      }
    }
  }

  predicate NoUpper(s: string)
  {
    forall i :: 0 <= i < |s| ==> !IsUpper(s[i])
  }

  /** A residue token: non-upper-case characters ending in one upper-case residue. */
  predicate WellFormedToken(t: string)
  {
    |t| >= 1 && IsUpper(t[|t| - 1]) && NoUpper(t[..|t| - 1])
  }

  /** Number of upper-case characters in s. */
  function CountUpper(s: string): nat
  {
    if s == [] then 0 else (if IsUpper(s[0]) then 1 else 0) + CountUpper(s[1..])
  }

  lemma NoUpperExtend(pending: string, c: char)
    requires NoUpper(pending) && !IsUpper(c)
    ensures NoUpper(pending + [c])
  {
    var q := pending + [c];
    forall i | 0 <= i < |q| ensures !IsUpper(q[i]) {
      if i < |pending| { assert q[i] == pending[i]; }
    }
  }

  /** One token per upper-case character. */
  lemma {:induction false} TokensFromCount(pending: string, s: string)
    ensures |TokensFrom(pending, s)| == CountUpper(s)
    decreases |s|
  {
    if s != [] {
      if IsUpper(s[0]) {
        TokensFromCount([], s[1..]);
      } else {
        TokensFromCount(pending + [s[0]], s[1..]);
      }
    }
  }

  /** Every token is a well-formed token; the dropped residue has no residue letter. */
  lemma {:induction false} TokensFromWellFormed(pending: string, s: string)
    requires NoUpper(pending)
    ensures forall t :: t in TokensFrom(pending, s) ==> WellFormedToken(t)
    ensures NoUpper(Residue(pending, s))
    decreases |s|
  {
    if s != [] {
      var c := s[0];
      if IsUpper(c) {
        TokensFromWellFormed([], s[1..]);
        var t := pending + [c];
        assert t[..|t| - 1] == pending;
      } else {
        NoUpperExtend(pending, c);
        TokensFromWellFormed(pending + [c], s[1..]);
      }
    }
  }

  /** The tokens followed by the dropped residue spell out the input. */
  lemma {:induction false} TokensFromSpell(pending: string, s: string)
    ensures Flatten(TokensFrom(pending, s)) + Residue(pending, s) == pending + s
    decreases |s|
  {
    if s != [] {
      var c := s[0];
      var t := pending + [c];
      assert t + s[1..] == pending + s by { assert s == [c] + s[1..]; }
      if IsUpper(c) {
        var x, r := TokensFrom([], s[1..]), Residue([], s[1..]);
        assert TokensFrom(pending, s) == [t] + x;
        assert Residue(pending, s) == r;
        TokensFromSpell([], s[1..]);
        assert Flatten(x) + r == s[1..] by { assert [] + s[1..] == s[1..]; }
        SpellToken(t, x, r, s[1..]);
      } else {
        assert TokensFrom(pending, s) == TokensFrom(t, s[1..]);
        assert Residue(pending, s) == Residue(t, s[1..]);
        TokensFromSpell(t, s[1..]);
      }
    }
  }

  /** A token put in front of tokens that spell a text spells the token and the text. */
  lemma SpellToken(t: string, x: seq<string>, r: string, rest: string)
    requires Flatten(x) + r == rest
    ensures Flatten([t] + x) + r == t + rest
  {
    FlattenCons(t, x);
  }

  /** No token contains '_' when neither the pending text nor the rest does. */
  lemma {:induction false} TokensFromNoUnderscore(pending: string, s: string)
    requires '_' !in pending && '_' !in s
    ensures forall t :: t in TokensFrom(pending, s) ==> '_' !in t
    decreases |s|
  {
    if s != [] {
      assert s[0] != '_' && '_' !in s[1..];
      if IsUpper(s[0]) {
        TokensFromNoUnderscore([], s[1..]);
      } else {
        TokensFromNoUnderscore(pending + [s[0]], s[1..]);
      }
    }
  }

  /** parse emits exactly one well-formed token per upper-case character before the
      first '_', and the tokens spell out that part up to its last upper-case letter. */
  lemma TokenizeShape(peptide: string)
    ensures |Tokenize(peptide)| == CountUpper(StripTag(peptide))
    ensures forall t :: t in Tokenize(peptide) ==> WellFormedToken(t) && '_' !in t
    ensures Flatten(Tokenize(peptide)) + Residue([], StripTag(peptide)) == StripTag(peptide)
    ensures NoUpper(Residue([], StripTag(peptide)))
  {
    var p := StripTag(peptide);
    TokensFromCount([], p);
    TokensFromWellFormed([], p);
    TokensFromSpell([], p);
    TokensFromNoUnderscore([], p);
  }

  lemma {:induction false} ResidueEndsUpper(pending: string, s: string)
    requires s != [] && IsUpper(s[|s| - 1])
    ensures Residue(pending, s) == []
    decreases |s|
  {
    if |s| > 1 {
      var rest := s[1..];
      assert rest[|rest| - 1] == s[|s| - 1];
      if IsUpper(s[0]) {
        ResidueEndsUpper([], rest);
      } else {
        ResidueEndsUpper(pending + [s[0]], rest);
      }
    }
  }

  /** A '_'-free peptide that ends in a residue letter is exactly the join of its
      tokens, and it has at least one token. */
  lemma TokenizeWhole(p: string)
    requires '_' !in p && p != [] && IsUpper(p[|p| - 1])
    ensures Flatten(Tokenize(p)) == p
    ensures |Tokenize(p)| >= 1
  {
    TokenizeShape(p);
    ResidueEndsUpper([], p);
    assert Flatten(Tokenize(p)) + [] == Flatten(Tokenize(p));
  }

  lemma {:induction false} TokensFromAppend(pending: string, a: string, b: string)
    ensures TokensFrom(pending, a + b) == TokensFrom(pending, a) + TokensFrom(Residue(pending, a), b)
    ensures Residue(pending, a + b) == Residue(Residue(pending, a), b)
    decreases |a|
  {
    if a == [] {
      assert a + b == b;
    } else {
      assert (a + b)[0] == a[0] && (a + b)[1..] == a[1..] + b;
      if IsUpper(a[0]) {
        TokensFromAppend([], a[1..], b);
      } else {
        TokensFromAppend(pending + [a[0]], a[1..], b);
      }
    }
  }

  lemma {:induction false} TokensFromToken(pending: string, t: string)
    requires WellFormedToken(t)
    ensures TokensFrom(pending, t) == [pending + t]
    ensures Residue(pending, t) == []
    decreases |t|
  {
    if |t| == 1 {
      assert t[1..] == [];
      assert pending + t == pending + [t[0]];
    } else {
      assert !IsUpper(t[0]);
      var rest := t[1..];
      assert rest[..|rest| - 1] == t[1..|t| - 1];
      TokensFromToken(pending + [t[0]], rest);
      assert pending + [t[0]] + rest == pending + t;
    }
  }

  /** Characters held before the scan only extend the first token emitted. */
  lemma {:induction false} TokensFromPrefix(a: string, b: string, s: string)
    requires TokensFrom(b, s) != []
    ensures TokensFrom(a + b, s) == [a + TokensFrom(b, s)[0]] + TokensFrom(b, s)[1..]
    decreases |s|
  {
    if IsUpper(s[0]) {
      assert a + b + [s[0]] == a + (b + [s[0]]);
    } else {
      TokensFromPrefix(a, b + [s[0]], s[1..]);
      assert a + b + [s[0]] == a + (b + [s[0]]);
    }
  }

  /** A string without upper-case letters emits no token and is all held. */
  lemma {:induction false} TokensFromNoUpper(pending: string, s: string)
    requires NoUpper(s)
    ensures TokensFrom(pending, s) == []
    ensures Residue(pending, s) == pending + s
    decreases |s|
  {
    if s != [] {
      assert !IsUpper(s[0]);
      assert NoUpper(s[1..]) by {
        forall i | 0 <= i < |s[1..]| ensures !IsUpper(s[1..][i]) { assert s[1..][i] == s[i + 1]; }
      }
      TokensFromNoUpper(pending + [s[0]], s[1..]);
      assert pending + [s[0]] + s[1..] == pending + s;
    }
  }

  /** Joining well-formed, '_'-free tokens and parsing the result gives back the
      same tokens. */
  lemma {:induction false} TokenizeFlatten(ts: seq<string>)
    requires forall t :: t in ts ==> WellFormedToken(t) && '_' !in t
    ensures '_' !in Flatten(ts)
    ensures Tokenize(Flatten(ts)) == ts
    ensures Residue([], Flatten(ts)) == []
  {
    if ts != [] {
      var init, t := ts[..|ts| - 1], ts[|ts| - 1];
      assert forall x :: x in init ==> x in ts;
      TokenizeFlatten(init);
      TokensFromAppend([], Flatten(init), t);
      TokensFromToken([], t);
      assert [] + t == t;
      assert init + [t] == ts;
    }
  }

  lemma {:induction false} BeforeUnderscoreTagged(p: string, tag: string)
    requires '_' !in p
    ensures BeforeUnderscore(p + ['_'] + tag) == p
  {
    if p != [] {
      assert (p + ['_'] + tag)[1..] == p[1..] + ['_'] + tag;
      BeforeUnderscoreTagged(p[1..], tag);
    }
  }

  /** A tag after a '_'-free peptide does not change its tokens:
      parse(p + "_decoy") == parse(p). */
  lemma TokenizeTagged(p: string, tag: string)
    requires '_' !in p
    ensures Tokenize(p + ['_'] + tag) == Tokenize(p)
  {
    BeforeUnderscoreTagged(p, tag);
    assert '_' in p + ['_'] + tag by { assert (p + ['_'] + tag)[|p|] == '_'; }
  }
}
