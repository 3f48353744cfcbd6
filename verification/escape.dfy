/**
 * `escapeRegex` and the fragment of JavaScript regular-expression syntax it targets.
 *
 * The escaper puts a backslash before every character that has a meaning in pattern
 * syntax. `ParseLiteral` reads back the literal fragment of the syntax (plain
 * characters and escaped metacharacters) and rejects everything else, so the round
 * trip below says the highlighting pattern matches the query as a literal string.
 */
module RegexEscape {
  import opened Wrappers

  /** The metacharacters of the escaper's character class: . * + ? ^ $ { } ( ) | [ ] and backslash. */
  predicate IsMeta(c: char) {
    || c == '.' || c == '*' || c == '+' || c == '?' || c == '^' || c == '$'
    || c == '{' || c == '}' || c == '(' || c == ')' || c == '|'
    || c == '[' || c == ']' || c == '\\'
  }

  /** The replacement `\$&` applied to one character. */
  function EscapeChar(c: char): string {
    if IsMeta(c) then ['\\', c] else [c]
  }

  /**
   * `escapeRegex`: every metacharacter gets one backslash in front; other characters
   * are copied, so the result is longer by exactly one backslash per metacharacter.
   */
  function EscapeRegex(s: string): (r: string)
    ensures |r| == |s| + CountMeta(s)
    decreases |s|
  {
    if s == [] then [] else EscapeChar(s[0]) + EscapeRegex(s[1..])
  }

  /** How many metacharacters `s` holds. */
  function CountMeta(s: string): nat
    decreases |s|
  {
    if s == [] then 0 else (if IsMeta(s[0]) then 1 else 0) + CountMeta(s[1..])
  }

  /** Escaping works character by character, so it distributes over concatenation. */
  lemma {:induction false} EscapeAppend(a: string, b: string)
    ensures EscapeRegex(a + b) == EscapeRegex(a) + EscapeRegex(b)
    ensures CountMeta(a + b) == CountMeta(a) + CountMeta(b)
    decreases |a|
  {
    if a == [] {
      assert a + b == b;
    } else {
      assert (a + b)[0] == a[0] && (a + b)[1..] == a[1..] + b;
      EscapeAppend(a[1..], b);
    }
  }

  /**
   * Character `s[i]` lands at output position `i + CountMeta(s[..i])`: a metacharacter
   * there is preceded by one backslash, any other character is copied unchanged.
   */
  lemma EscapeAt(s: string, i: nat)
    requires i < |s|
    ensures var r, at := EscapeRegex(s), i + CountMeta(s[..i]);
            if IsMeta(s[i]) then at + 1 < |r| && r[at] == '\\' && r[at + 1] == s[i]
            else at < |r| && r[at] == s[i]
  {
    assert s == s[..i] + ([s[i]] + s[i + 1..]);
    EscapeAppend(s[..i], [s[i]] + s[i + 1..]);
    EscapeAppend([s[i]], s[i + 1..]);
    assert EscapeRegex([s[i]]) == EscapeChar(s[i]);
  }

  function Prepend(c: char, rest: Option<string>): Option<string> {
    match rest
    case Some(t) => Some([c] + t)
    case None => None
  }

  /**
   * Reads a pattern body that consists only of literal atoms: a character that is
   * not a metacharacter stands for itself, and a backslash followed by a
   * metacharacter stands for that metacharacter. Anything else (an operator, a
   * class, a group, another escape) is outside the literal fragment and gives None.
   */
  function ParseLiteral(p: string): Option<string>
    decreases |p|
  {
    if p == [] then Some([])
    else if p[0] == '\\' then
      if |p| >= 2 && IsMeta(p[1]) then Prepend(p[1], ParseLiteral(p[2..])) else None
    else if IsMeta(p[0]) then None
    else Prepend(p[0], ParseLiteral(p[1..]))
  }

  /** The source text of the highlighting pattern: the escaped query inside one capture group. */
  function RegexSource(query: string): string {
    "(" + EscapeRegex(query) + ")"
  }

  /** Reads a pattern made of one capture group around a literal; the literal is what the group captures. */
  function CompileCapture(p: string): Option<string> {
    if |p| >= 2 && p[0] == '(' && p[|p| - 1] == ')' then ParseLiteral(p[1..|p| - 1]) else None
  }

  /** Reading back an escaped string gives the original: each metacharacter is taken literally. */
  lemma {:induction false} ParseEscaped(s: string)
    ensures ParseLiteral(EscapeRegex(s)) == Some(s)
    decreases |s|
  {
    if s != [] {
      ParseEscaped(s[1..]);
      var e := EscapeRegex(s);
      assert e == EscapeChar(s[0]) + EscapeRegex(s[1..]);
      if IsMeta(s[0]) {
        assert e[2..] == EscapeRegex(s[1..]);
      } else {
        assert e[0] == s[0] && e[1..] == EscapeRegex(s[1..]);
      }
      assert s == [s[0]] + s[1..];
    }
  }

  /** The literal fragment holds nothing but escaper output: a pattern body that reads as `s` is exactly `EscapeRegex(s)`. */
  lemma {:induction false} ParsedIsEscaped(p: string, s: string)
    requires ParseLiteral(p) == Some(s)
    ensures p == EscapeRegex(s)
    decreases |p|
  {
    if p != [] {
      if p[0] == '\\' {
        var t := ParseLiteral(p[2..]).value;
        ParsedIsEscaped(p[2..], t);
        assert s == [p[1]] + t;
        assert s[1..] == t;
        assert p == [p[0], p[1]] + p[2..];
      } else {
        var t := ParseLiteral(p[1..]).value;
        ParsedIsEscaped(p[1..], t);
        assert s == [p[0]] + t;
        assert s[1..] == t;
        assert p == [p[0]] + p[1..];
      }
    }
  }

  /** The highlighting pattern always compiles, and its group captures exactly the query, character for character. */
  lemma CompileEscaped(query: string)
    ensures CompileCapture(RegexSource(query)) == Some(query)
  {
    var p := RegexSource(query);
    assert p[1..|p| - 1] == EscapeRegex(query);
    ParseEscaped(query);
  }

  /** Distinct queries give distinct patterns. */
  lemma EscapeInjective(a: string, b: string)
    requires EscapeRegex(a) == EscapeRegex(b)
    ensures a == b
  {
    ParseEscaped(a);
    ParseEscaped(b);
  }
}
