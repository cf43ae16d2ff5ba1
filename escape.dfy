/**
 * `escape` in app.js:61-64: a missing or empty input gives the empty string;
 * otherwise every `<` becomes `&lt;`, then every `>` becomes `&gt;`. The
 * ampersand itself is not escaped. The function is defined but never called.
 */
module Escape {
  import opened Wrappers
  import opened Replace

  const LT_ENTITY := "&lt;"
  const GT_ENTITY := "&gt;"

  /** `escape(str)`, with `None` for `undefined` or `null`. */
  function Escape(str: Option<string>): string {
    match str
    case None => []
    case Some(s) =>
      if s == [] then []
      else ReplaceAll(ReplaceAll(s, "<", LT_ENTITY), ">", GT_ENTITY)
  }

  /** What one character becomes. */
  function EscapeChar(c: char): string {
    if c == '<' then LT_ENTITY else if c == '>' then GT_ENTITY else [c]
  }

  /** Character-by-character reference: each character mapped on its own, in order. */
  function EscapeEach(s: string): string {
    if s == [] then [] else EscapeChar(s[0]) + EscapeEach(s[1..])
  }

  function CountChar(s: string, c: char): nat {
    if s == [] then 0 else (if s[0] == c then 1 else 0) + CountChar(s[1..], c)
  }

  /** Replacing a single character `c` by `v`, character by character. */
  function ReplaceChar(s: string, c: char, v: string): string {
    if s == [] then [] else (if s[0] == c then v else [s[0]]) + ReplaceChar(s[1..], c, v)
  }

  /** A pass with a one-character token replaces that character wherever it stands. */
  lemma {:induction false} ReplaceAllOneChar(s: string, c: char, v: string)
    ensures ReplaceAll(s, [c], v) == ReplaceChar(s, c, v)
    decreases |s|
  {
    if s != [] {
      assert StartsWith(s, [c]) <==> s[0] == c by {
        assert s[0..1] == [s[0]];
      }
      ReplaceAllOneChar(s[1..], c, v);
    }
  }

  lemma {:induction false} ReplaceCharConcat(a: string, b: string, c: char, v: string)
    ensures ReplaceChar(a + b, c, v) == ReplaceChar(a, c, v) + ReplaceChar(b, c, v)
    decreases |a|
  {
    if a == [] {
      assert a + b == b;
    } else {
      assert (a + b)[1..] == a[1..] + b;
      ReplaceCharConcat(a[1..], b, c, v);
    }
  }

  lemma {:induction false} ReplaceCharAbsent(s: string, c: char, v: string)
    requires c !in s
    ensures ReplaceChar(s, c, v) == s
    decreases |s|
  {
    if s != [] {
      ReplaceCharAbsent(s[1..], c, v);
      assert [s[0]] + s[1..] == s;
    }
  }

  /** The two passes agree with the character-by-character reference. */
  lemma {:induction false} TwoPassesAreEach(s: string)
    ensures ReplaceChar(ReplaceChar(s, '<', LT_ENTITY), '>', GT_ENTITY) == EscapeEach(s)
    decreases |s|
  {
    if s != [] {
      var head := if s[0] == '<' then LT_ENTITY else [s[0]];
      assert ReplaceChar(s, '<', LT_ENTITY) == head + ReplaceChar(s[1..], '<', LT_ENTITY);
      ReplaceCharConcat(head, ReplaceChar(s[1..], '<', LT_ENTITY), '>', GT_ENTITY);
      if s[0] == '<' {
        ReplaceCharAbsent(LT_ENTITY, '>', GT_ENTITY);
      } else {
        assert ReplaceChar([s[0]], '>', GT_ENTITY) == EscapeChar(s[0]);
      }
      TwoPassesAreEach(s[1..]);
    }
  }

  /** `escape` maps every character on its own: a `<` or `>` to its entity, any other to itself. */
  lemma EscapeIsEach(s: string)
    ensures Escape(Some(s)) == EscapeEach(s)
  {
    if s != [] {
      ReplaceAllOneChar(s, '<', LT_ENTITY);
      ReplaceAllOneChar(ReplaceAll(s, "<", LT_ENTITY), '>', GT_ENTITY);
      TwoPassesAreEach(s);
    }
  }

  lemma {:induction false} EscapeEachConcat(a: string, b: string)
    ensures EscapeEach(a + b) == EscapeEach(a) + EscapeEach(b)
    decreases |a|
  {
    if a == [] {
      assert a + b == b;
    } else {
      assert (a + b)[1..] == a[1..] + b;
      EscapeEachConcat(a[1..], b);
    }
  }

  lemma {:induction false} EscapeEachLength(s: string)
    ensures |EscapeEach(s)| == |s| + 3 * CountChar(s, '<') + 3 * CountChar(s, '>')
    decreases |s|
  {
    if s != [] {
      EscapeEachLength(s[1..]);
    }
  }

  lemma {:induction false} EscapeEachNoBrackets(s: string)
    ensures '<' !in EscapeEach(s) && '>' !in EscapeEach(s)
    decreases |s|
  {
    if s != [] {
      EscapeEachNoBrackets(s[1..]);
      assert '<' !in LT_ENTITY && '>' !in LT_ENTITY;
      assert '<' !in GT_ENTITY && '>' !in GT_ENTITY;
    }
  }

  lemma {:induction false} EscapeEachPlain(s: string)
    requires '<' !in s && '>' !in s
    ensures EscapeEach(s) == s
    decreases |s|
  {
    if s != [] {
      EscapeEachPlain(s[1..]);
      assert [s[0]] + s[1..] == s;
    }
  }

  /** A missing or empty input gives the empty string. */
  lemma EscapeMissingOrEmpty(str: Option<string>)
    requires str == None || str == Some([])
    ensures Escape(str) == []
  {
  }

  /** The result holds no angle bracket. */
  lemma EscapeRemovesBrackets(str: Option<string>)
    ensures '<' !in Escape(str) && '>' !in Escape(str)
  {
    if str.Some? {
      EscapeIsEach(str.value);
      EscapeEachNoBrackets(str.value);
    }
  }

  /** Each bracket grows by the three extra characters of its entity; nothing else changes length. */
  lemma EscapeLength(s: string)
    ensures |Escape(Some(s))| == |s| + 3 * CountChar(s, '<') + 3 * CountChar(s, '>')
  {
    EscapeIsEach(s);
    EscapeEachLength(s);
  }

  /** Escaping a concatenation escapes each part: characters are kept in their order. */
  lemma EscapeConcat(a: string, b: string)
    ensures Escape(Some(a + b)) == Escape(Some(a)) + Escape(Some(b))
  {
    EscapeIsEach(a + b);
    EscapeIsEach(a);
    EscapeIsEach(b);
    EscapeEachConcat(a, b);
  }

  /** Text without angle brackets, ampersands included, is left as it is. */
  lemma EscapeKeepsPlainText(s: string)
    requires '<' !in s && '>' !in s
    ensures Escape(Some(s)) == s
  {
    EscapeIsEach(s);
    EscapeEachPlain(s);
  }

  /** Escaping twice is escaping once. */
  lemma EscapeIdempotent(str: Option<string>)
    ensures Escape(Some(Escape(str))) == Escape(str)
  {
    EscapeRemovesBrackets(str);
    EscapeKeepsPlainText(Escape(str));
  }

  /** Since `&` is kept, an escaped `<` and the literal text `&lt;` give the same output. */
  lemma EscapeNotInjective()
    ensures Escape(Some("<")) == Escape(Some(LT_ENTITY)) == LT_ENTITY
  {
    EscapeKeepsPlainText(LT_ENTITY);
    EscapeIsEach("<");
    assert EscapeEach("<") == EscapeChar('<') + EscapeEach([]);
  }
}
