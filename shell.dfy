/**
 * The escaper `shEscape` of scripts/import-chapters.js and a model of how Bash
 * reads the text between the two quotes of a double-quoted word.
 */
module Shell {
  import opened Wrappers

  /** The characters that keep a special meaning inside a Bash double-quoted string
      and that `shEscape` puts a backslash before. */
  predicate IsSpecial(c: char) {
    c == '$' || c == '`' || c == '"' || c == '\\'
  }

  /** True when no character of `s` is special. */
  predicate Plain(s: string) {
    !('$' in s || '`' in s || '"' in s || '\\' in s)
  }

  /** `Plain` one character at a time. */
  lemma PlainCons(s: string)
    requires s != []
    ensures Plain(s) <==> !IsSpecial(s[0]) && Plain(s[1..])
  {
    assert s == [s[0]] + s[1..];
  }

  /** Number of special characters in `s`. */
  function CountSpecial(s: string): nat {
    if s == [] then 0 else (if IsSpecial(s[0]) then 1 else 0) + CountSpecial(s[1..])
  }

  /** What `shEscape` makes of one character. */
  function EscapeChar(c: char): string {
    if IsSpecial(c) then ['\\', c] else [c]
  }

  /** `str.replace(/([$`"\\])/g, "\\$1")`: a backslash before every special character. */
  function ShEscape(s: string): (r: string)
    ensures |r| == |s| + CountSpecial(s)
  {
    if s == [] then [] else EscapeChar(s[0]) + ShEscape(s[1..])
  }

  /** Prefixes `p` to a successful reading, and keeps a failed one failed. */
  function Prepend(p: string, o: Option<string>): Option<string> {
    match o
    case None => None
    case Some(v) => Some(p + v)
  }

  /** The characters that, right after an unescaped `$`, make it start an expansion: a
      name, a positional or special parameter, `${`, `$(` and `$[`. */
  predicate StartsExpansion(c: char) {
    ('a' <= c <= 'z') || ('A' <= c <= 'Z') || ('0' <= c <= '9') || c == '_'
    || c == '{' || c == '(' || c == '['
    || c == '@' || c == '*' || c == '#' || c == '?' || c == '-' || c == '$' || c == '!'
  }

  /**
   * The characters Bash produces from `t` when `t` stands between the two quotes of a
   * double-quoted word: a backslash before `$`, a backtick, `"` or a backslash
   * is dropped, a backslash before a newline is dropped together with the newline,
   * and any other backslash is kept. A `$` before anything that cannot start an expansion
   * (a space, a `"`, the end of the word, ...) is kept. The reading is None when `t` holds
   * an unescaped `"` (it would end the word there), an unescaped backtick or a `$` that
   * starts an expansion (the text is then not taken literally) or a lone trailing
   * backslash (it would escape the closing quote).
   */
  function DoubleQuotedValue(t: string): Option<string>
    decreases |t|
  {
    if t == [] then Some([])
    else if t[0] == '\\' then
      if |t| == 1 then None
      else if IsSpecial(t[1]) then Prepend([t[1]], DoubleQuotedValue(t[2..]))
      else if t[1] == '\n' then DoubleQuotedValue(t[2..])
      else Prepend(['\\'], DoubleQuotedValue(t[1..]))
    else if t[0] == '$' then
      if |t| > 1 && StartsExpansion(t[1]) then None
      else Prepend(['$'], DoubleQuotedValue(t[1..]))
    else if IsSpecial(t[0]) then None
    else Prepend([t[0]], DoubleQuotedValue(t[1..]))
  }

  /** Escaping distributes over concatenation, so each character is escaped on its own
      and the order of the characters is kept. */
  lemma {:induction false} ShEscapeAppend(a: string, b: string)
    ensures ShEscape(a + b) == ShEscape(a) + ShEscape(b)
  {
    if a == [] {
      assert a + b == b;
    } else {
      assert (a + b)[0] == a[0];
      assert (a + b)[1..] == a[1..] + b;
      ShEscapeAppend(a[1..], b);
    }
  }

  lemma {:induction false} CountSpecialZero(s: string)
    ensures CountSpecial(s) == 0 <==> Plain(s)
  {
    if s != [] {
      CountSpecialZero(s[1..]);
      PlainCons(s);
    }
  }

  /** `shEscape` returns its input exactly when none of the four special characters occurs. */
  lemma {:induction false} ShEscapeIdentity(s: string)
    ensures ShEscape(s) == s <==> Plain(s)
  {
    CountSpecialZero(s);
    if Plain(s) && s != [] {
      PlainCons(s);
      ShEscapeIdentity(s[1..]);
    }
  }

  /** Reading an escaped character and then further text. */
  lemma EscapeCharRead(c: char, t: string)
    ensures DoubleQuotedValue(EscapeChar(c) + t) == Prepend([c], DoubleQuotedValue(t))
  {
    var u := EscapeChar(c) + t;
    if IsSpecial(c) {
      assert u[0] == '\\' && u[1] == c && u[2..] == t;
    } else {
      assert u[0] == c && u[1..] == t;
    }
  }

  /** Round trip: Bash reads the escaped text back as the original text, for every text. */
  lemma {:induction false} ShEscapeRoundTrip(s: string)
    ensures DoubleQuotedValue(ShEscape(s)) == Some(s)
  {
    if s != [] {
      ShEscapeRoundTrip(s[1..]);
      EscapeCharRead(s[0], ShEscape(s[1..]));
      assert [s[0]] + s[1..] == s;
    }
  }

  /** Hence `shEscape` loses nothing: different texts have different escapes. */
  lemma ShEscapeInjective(s: string, t: string)
    requires ShEscape(s) == ShEscape(t)
    ensures s == t
  {
    ShEscapeRoundTrip(s);
    ShEscapeRoundTrip(t);
  }

  /** Text without special characters is read as itself, ahead of whatever follows. */
  lemma {:induction false} PlainPrefixRead(p: string, t: string)
    requires Plain(p)
    ensures DoubleQuotedValue(p + t) == Prepend(p, DoubleQuotedValue(t))
  {
    if p == [] {
      assert p + t == t;
      match DoubleQuotedValue(t)
      case None =>
      case Some(v) => assert p + v == v;
    } else {
      var u := p + t;
      assert u[0] == p[0] && u[1..] == p[1..] + t;
      PlainCons(p);
      PlainPrefixRead(p[1..], t);
      match DoubleQuotedValue(t)
      case None =>
      case Some(v) => assert [p[0]] + (p[1..] + v) == p + v;
    }
  }

  /** An unescaped `"` or backtick after plain text makes the reading fail: text put
      between double quotes without `shEscape` is not taken literally. */
  lemma UnescapedSpecialBreaksReading(p: string, c: char, t: string)
    requires Plain(p) && (c == '"' || c == '`')
    ensures DoubleQuotedValue(p + [c] + t) == None
  {
    PlainPrefixRead(p, [c] + t);
    assert p + [c] + t == p + ([c] + t);
  }

  /** An unescaped `$` after plain text breaks the reading exactly when the character after
      it starts an expansion; otherwise it is read as itself. */
  lemma UnescapedDollarRead(p: string, c: char, t: string)
    requires Plain(p)
    ensures StartsExpansion(c) ==> DoubleQuotedValue(p + "$" + [c] + t) == None
    ensures !StartsExpansion(c) ==>
      DoubleQuotedValue(p + "$" + [c] + t) == Prepend(p + "$", DoubleQuotedValue([c] + t))
  {
    var u := "$" + [c] + t;
    PlainPrefixRead(p, u);
    assert p + "$" + [c] + t == p + u;
    assert u[0] == '$' && u[1] == c && u[1..] == [c] + t;
    match DoubleQuotedValue([c] + t)
    case None =>
    case Some(v) => assert p + ("$" + v) == p + "$" + v;
  }

  /** A `$` at the end of the text is read as itself. */
  lemma TrailingDollarRead(p: string)
    requires Plain(p)
    ensures DoubleQuotedValue(p + "$") == Some(p + "$")
  {
    PlainPrefixRead(p, "$");
    var d := "$";
    assert d[0] == '$' && d[1..] == [] && ['$'] + [] == d;
    assert DoubleQuotedValue(d) == Prepend(['$'], DoubleQuotedValue([]));
  }

  /** `"a$ b"` and `"x$"` are read literally, `"$HOME"` is not. */
  lemma DollarExamples()
    ensures DoubleQuotedValue("a$ b") == Some("a$ b")
    ensures DoubleQuotedValue("x$") == Some("x$")
    ensures DoubleQuotedValue("$HOME") == None
  {
    var a, sp, b := "a", ' ', "b";
    assert Plain(a) && Plain([sp] + b) && Plain("x") && Plain("");
    UnescapedDollarRead(a, sp, b);
    PlainPrefixRead([sp] + b, []);
    assert [sp] + b + [] == [sp] + b;
    assert DoubleQuotedValue([sp] + b) == Some([sp] + b);
    assert a + "$" + ([sp] + b) == "a$ b";
    assert a + "$" + [sp] + b == "a$ b";
    TrailingDollarRead("x");
    assert "x" + "$" == "x$";
    UnescapedDollarRead("", 'H', "OME");
    assert "" + "$" + ['H'] + "OME" == "$HOME";
  }
}
