/** Character and string helpers: Python's `str.isupper`, `str.replace` with a
    one-character pattern, substring tests, `str(n)` and string ordering. */
module Text {

  /** `c.isupper()` for the ASCII letters the model works with. */
  predicate IsUpper(c: char)
  {
    'A' <= c <= 'Z'
  }

  /** `s.replace(c, r)`: every occurrence of the character c becomes r. */
  function ReplaceChar(s: string, c: char, r: string): string
  {
    if s == [] then [] else (if s[0] == c then r else [s[0]]) + ReplaceChar(s[1..], c, r)
  }

  lemma {:induction false} ReplaceCharAppend(a: string, b: string, c: char, r: string)
    ensures ReplaceChar(a + b, c, r) == ReplaceChar(a, c, r) + ReplaceChar(b, c, r)
  {
    if a != [] {
      assert (a + b)[1..] == a[1..] + b;
      ReplaceCharAppend(a[1..], b, c, r);
    } else {
      assert a + b == b;
    }
  }

  /** Number of occurrences of c in s. */
  function CountChar(s: string, c: char): nat
  {
    if s == [] then 0 else (if s[0] == c then 1 else 0) + CountChar(s[1..], c)
  }

  /** Replacing c by a string that is c with a non-empty prefix lengthens s by
      that prefix once per occurrence, and leaves s unchanged when c is absent. */
  lemma {:induction false} ReplaceCharLength(s: string, c: char, r: string)
    ensures |ReplaceChar(s, c, r)| == |s| + (|r| - 1) * CountChar(s, c)
    ensures c !in s ==> ReplaceChar(s, c, r) == s
  {
    if s != [] {
      ReplaceCharLength(s[1..], c, r);
      assert c !in s ==> c !in s[1..];
    }
  }

  /** The upper-case characters of s, in order: the residue letters of a peptide
      without its modification prefixes. */
  function Residues(s: string): string
  {
    if s == [] then [] else (if IsUpper(s[0]) then [s[0]] else []) + Residues(s[1..])
  }

  lemma {:induction false} ResiduesAppend(a: string, b: string)
    ensures Residues(a + b) == Residues(a) + Residues(b)
  {
    if a != [] {
      assert (a + b)[1..] == a[1..] + b;
      ResiduesAppend(a[1..], b);
    } else {
      assert a + b == b;
    }
  }

  /** Replacing a character by a string with the same residue letters keeps the
      residue letters of s. */
  lemma {:induction false} ResiduesReplaceChar(s: string, c: char, r: string)
    requires Residues(r) == Residues([c])
    ensures Residues(ReplaceChar(s, c, r)) == Residues(s)
  {
    if s != [] {
      ResiduesReplaceChar(s[1..], c, r);
      ResiduesAppend(if s[0] == c then r else [s[0]], ReplaceChar(s[1..], c, r));
      ResiduesAppend([s[0]], s[1..]);
      assert s == [s[0]] + s[1..];
    }
  }

  /** Every string of out has the residue letters of some string of src. */
  ghost predicate ResiduesFrom(out: seq<string>, src: seq<string>)
  {
    forall t :: t in out ==> exists p :: p in src && Residues(t) == Residues(p)
  }

  lemma ResiduesFromTrans(a: seq<string>, b: seq<string>, c: seq<string>)
    requires ResiduesFrom(a, b) && ResiduesFrom(b, c)
    ensures ResiduesFrom(a, c)
  {
    forall t | t in a ensures exists p :: p in c && Residues(t) == Residues(p) {
      var q :| q in b && Residues(t) == Residues(q);
    }
  }

  /** Every string of a list drawn from src has its own residue letters. */
  lemma ResiduesFromSubset(out: seq<string>, src: seq<string>)
    requires forall t :: t in out ==> t in src
    ensures ResiduesFrom(out, src)
  {
    forall t | t in out ensures exists p :: p in src && Residues(t) == Residues(p) {
      assert t in src;
    }
  }

  /** A list whose i-th string has the residue letters of src's i-th. */
  lemma ResiduesFromPointwise(out: seq<string>, src: seq<string>)
    requires |out| == |src| && forall i :: 0 <= i < |out| ==> Residues(out[i]) == Residues(src[i])
    ensures ResiduesFrom(out, src)
  {
    forall t | t in out ensures exists p :: p in src && Residues(t) == Residues(p) {
      var i :| 0 <= i < |out| && out[i] == t;
      assert src[i] in src;
    }
  }

  /** The two-character string [a, b] occurs in s (`"<^" in mod`). */
  predicate ContainsPair(s: string, a: char, b: char)
  {
    exists i :: 0 <= i < |s| - 1 && s[i] == a && s[i + 1] == b
  }

  /** The decimal digit for d. */
  function Digit(d: nat): (c: char)
    requires d < 10
  {
    "0123456789"[d]
  }

  /** Python's `str(n)` for a natural number. */
  function NatToString(n: nat): (s: string)
    ensures |s| >= 1
    ensures n >= 10 ==> |s| >= 2
  {
    if n < 10 then [Digit(n)] else NatToString(n / 10) + [Digit(n % 10)]
  }

  lemma DigitInjective(a: nat, b: nat)
    requires a < 10 && b < 10 && Digit(a) == Digit(b)
    ensures a == b
  {
  }

  /** Distinct numbers have distinct decimal strings. */
  lemma {:induction false} NatToStringInjective(a: nat, b: nat)
    requires NatToString(a) == NatToString(b)
    ensures a == b
  {
    var s := NatToString(a);
    if a < 10 && b < 10 {
      DigitInjective(a, b);
    } else if a >= 10 && b >= 10 {
      assert s[|s| - 1] == Digit(a % 10) == Digit(b % 10);
      DigitInjective(a % 10, b % 10);
      assert s[..|s| - 1] == NatToString(a / 10) == NatToString(b / 10);
      NatToStringInjective(a / 10, b / 10);
    }
  }

  /** Python's `a <= b` on strings: lexicographic by code point. */
  predicate LexLe(a: string, b: string)
  {
    a == [] || (b != [] && (a[0] < b[0] || (a[0] == b[0] && LexLe(a[1..], b[1..]))))
  }

  lemma {:induction false} LexLeTotal(a: string, b: string)
    ensures LexLe(a, b) || LexLe(b, a)
  {
    if a != [] && b != [] && a[0] == b[0] {
      LexLeTotal(a[1..], b[1..]);
    }
  }

  lemma {:induction false} LexLeAntisymmetric(a: string, b: string)
    requires LexLe(a, b) && LexLe(b, a)
    ensures a == b
  {
    if a != [] && b != [] {
      LexLeAntisymmetric(a[1..], b[1..]);
      assert a == [a[0]] + a[1..];
      assert b == [b[0]] + b[1..];
    }
  }

  lemma {:induction false} LexLeTransitive(a: string, b: string, c: string)
    requires LexLe(a, b) && LexLe(b, c)
    ensures LexLe(a, c)
  {
    if a != [] && b != [] && c != [] && a[0] == b[0] && b[0] == c[0] {
      LexLeTransitive(a[1..], b[1..], c[1..]);
    }
  }
}
