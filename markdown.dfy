/** The markdown escaper of the GUI helpers (`escape_markdown`). */
module Markdown {
  import opened Text

  /** MD_SPECIAL_CHARS, in the order the source processes them: backslash first. */
  const MdSpecialChars: string := "\\`*_{}[]()#+-.!"

  /** One character of the escaped text: a backslash before it when it is in `done`. */
  function EscapeChar(c: char, done: string): string
  {
    if c in done then ['\\', c] else [c]
  }

  /** `text` with every character of `done` preceded by a backslash and every other
      character copied, in order. */
  function EscapedBy(text: string, done: string): string
  {
    if text == [] then [] else EscapeChar(text[0], done) + EscapedBy(text[1..], done)
  }

  /** The result escape_markdown promises: each special character escaped once. */
  function Escaped(text: string): string
  {
    EscapedBy(text, MdSpecialChars)
  }

  lemma {:induction false} EscapedByNothing(text: string)
    ensures EscapedBy(text, []) == text
  {
    if text != [] {
      EscapedByNothing(text[1..]);
    }
  }

  /** One pass of the loop: replacing c (not yet escaped; a backslash only while
      nothing has been escaped) escapes c and keeps every earlier escape intact. */
  lemma {:induction false} EscapeStep(text: string, done: string, c: char)
    requires c !in done
    requires c == '\\' ==> done == []
    ensures ReplaceChar(EscapedBy(text, done), c, ['\\', c]) == EscapedBy(text, done + [c])
  {
    if text != [] {
      var x := text[0];
      ReplaceCharAppend(EscapeChar(x, done), EscapedBy(text[1..], done), c, ['\\', c]);
      EscapeStep(text[1..], done, c);
      if x in done {
        assert ReplaceChar(['\\', x], c, ['\\', c]) == ['\\', x] by {
          assert ['\\', x][1..] == [x];
          assert ReplaceChar([x], c, ['\\', c]) == [x] by { assert [x][1..] == []; }
        }
      } else {
        assert ReplaceChar([x], c, ['\\', c]) == EscapeChar(x, done + [c]) by { assert [x][1..] == []; }
      }
    }
  }

  /** escape_markdown: one `text.replace(char, "\\" + char)` per special character. */
  method EscapeMarkdown(text: string) returns (r: string)
    ensures r == Escaped(text)
  {
    r := text;
    EscapedByNothing(text);
    assert MdSpecialChars[..0] == [];
    for k := 0 to |MdSpecialChars|
      invariant r == EscapedBy(text, MdSpecialChars[..k])
    {
      var c := MdSpecialChars[k];
      assert c !in MdSpecialChars[..k];
      assert c == '\\' ==> k == 0;
      EscapeStep(text, MdSpecialChars[..k], c);
      r := ReplaceChar(r, c, ['\\', c]);
      assert MdSpecialChars[..k + 1] == MdSpecialChars[..k] + [c];
    }
    assert MdSpecialChars[..|MdSpecialChars|] == MdSpecialChars;
  }

  /** Number of special characters in text. */
  function CountSpecial(text: string): nat
  {
    if text == [] then 0 else (if text[0] in MdSpecialChars then 1 else 0) + CountSpecial(text[1..])
  }

  /** The output is one character longer per special character of the input. */
  lemma {:induction false} EscapedLength(text: string)
    ensures |Escaped(text)| == |text| + CountSpecial(text)
  {
    if text != [] {
      EscapedLength(text[1..]);
    }
  }

  /** A text without special characters, "" included, comes back unchanged. */
  lemma {:induction false} EscapedPlain(text: string)
    requires forall i :: 0 <= i < |text| ==> text[i] !in MdSpecialChars
    ensures Escaped(text) == text
  {
    if text != [] {
      EscapedPlain(text[1..]);
    }
  }

  /** Deletes the backslash in front of every escaped special character. */
  function Unescape(t: string): string
  {
    if |t| >= 2 && t[0] == '\\' && t[1] in MdSpecialChars then [t[1]] + Unescape(t[2..])
    else if t == [] then []
    else [t[0]] + Unescape(t[1..])
  }

  /** Removing the inserted backslashes recovers the input exactly. */
  lemma {:induction false} UnescapeEscaped(text: string)
    ensures Unescape(Escaped(text)) == text
  {
    if text != [] {
      var x := text[0];
      UnescapeEscaped(text[1..]);
      var rest := Escaped(text[1..]);
      if x in MdSpecialChars {
        assert Escaped(text) == ['\\', x] + rest;
        assert (['\\', x] + rest)[2..] == rest;
      } else {
        assert x != '\\';
        assert Escaped(text) == [x] + rest;
        assert ([x] + rest)[1..] == rest;
      }
    }
  }
}
