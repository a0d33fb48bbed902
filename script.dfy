/**
 * The remote program and the ssh command that scripts/import-chapters.js composes
 * for one file: the Ruby template with its `<<~'MD'` heredoc, JavaScript's
 * `String.prototype.trim`, and the `<<'RUBY'` heredoc inside a double-quoted argument.
 */
module Script {
  import Shell
  import opened Wrappers

  /** JavaScript's WhiteSpace and LineTerminator characters, which `trim` removes. */
  predicate IsJsWhitespace(c: char) {
    c == '\t' || c == '\n' || c == '\U{000B}' || c == '\U{000C}' || c == '\r' || c == ' '
    || c == '\U{00A0}' || c == '\U{1680}' || ('\U{2000}' <= c <= '\U{200A}')
    || c == '\U{2028}' || c == '\U{2029}' || c == '\U{202F}' || c == '\U{205F}'
    || c == '\U{3000}' || c == '\U{FEFF}'
  }

  predicate AllWhitespace(s: string) {
    forall i :: 0 <= i < |s| ==> IsJsWhitespace(s[i])
  }

  function TrimStart(s: string): string {
    if s != [] && IsJsWhitespace(s[0]) then TrimStart(s[1..]) else s
  }

  function TrimEnd(s: string): string {
    if s != [] && IsJsWhitespace(s[|s| - 1]) then TrimEnd(s[..|s| - 1]) else s
  }

  /** `String.prototype.trim`. */
  function JsTrim(s: string): string {
    TrimEnd(TrimStart(s))
  }

  lemma {:induction false} TrimStartPadding(w: string, c: string)
    requires AllWhitespace(w)
    requires c != [] && !IsJsWhitespace(c[0])
    ensures TrimStart(w + c) == c
  {
    if w == [] {
      assert w + c == c;
    } else {
      assert (w + c)[0] == w[0];
      assert (w + c)[1..] == w[1..] + c;
      assert AllWhitespace(w[1..]) by {
        assert forall i :: 0 <= i < |w[1..]| ==> w[1..][i] == w[i + 1];
      }
      TrimStartPadding(w[1..], c);
    }
  }

  lemma {:induction false} TrimEndPadding(c: string, w: string)
    requires AllWhitespace(w)
    requires c != [] && !IsJsWhitespace(c[|c| - 1])
    ensures TrimEnd(c + w) == c
  {
    if w == [] {
      assert c + w == c;
    } else {
      var u := c + w;
      assert u[|u| - 1] == w[|w| - 1];
      assert u[..|u| - 1] == c + w[..|w| - 1];
      assert AllWhitespace(w[..|w| - 1]) by {
        assert forall i :: 0 <= i < |w| - 1 ==> w[..|w| - 1][i] == w[i];
      }
      TrimEndPadding(c, w[..|w| - 1]);
    }
  }

  /** `trim` removes exactly the whitespace around a text that starts and ends with
      something else. */
  lemma TrimPadding(w1: string, c: string, w2: string)
    requires AllWhitespace(w1) && AllWhitespace(w2)
    requires c != [] && !IsJsWhitespace(c[0]) && !IsJsWhitespace(c[|c| - 1])
    ensures JsTrim(w1 + c + w2) == c
  {
    assert w1 + c + w2 == w1 + (c + w2);
    TrimStartPadding(w1, c + w2);
    TrimEndPadding(c, w2);
  }

  // The template is cut into the constants below at the places where the title, the body
  // and the date go. Some constants are written as a concatenation of two shorter literals,
  // and the `...Regroup` lemmas, `Regroup3` and `LinesEnds` only re-associate
  // concatenations: both keep the verifier's work on these long literals small.

  /** The first Ruby line up to the opening quote of the title. */
  const FindCall := "page = Page." + "find_or_initialize_by(title: "

  /** From the closing quote of the title to the line that opens the body heredoc. */
  const BodyOpen := "\")\npage.body         = <<~'MD'\n"

  /** The line that closes the body heredoc, with the newlines around it. */
  const MdLine := "\nMD\n"

  /** The publish-date line up to the opening quote of the date. */
  const DateCall := "page.published_at ||= Time.zone.parse("

  /** From the closing quote of the date to the end of the program. */
  const SaveLine := "\")\npage.save!"

  /** The five Ruby lines of the template. */
  function RubyLines(title: string, body: string, pubAt: string): string {
    FindCall + "\"" + title + BodyOpen + body + MdLine + DateCall + "\"" + pubAt + SaveLine
  }

  /** The template literal before `.trim()`: a newline, the five Ruby lines, a newline and
      two spaces of indentation. */
  function RubyTemplate(title: string, body: string, pubAt: string): string {
    "\n" + RubyLines(title, body, pubAt) + "\n  "
  }

  lemma FindCallText()
    ensures FindCall[0] == 'p'
    ensures Shell.Plain(FindCall)
  {
    var a, b := "page = Page.", "find_or_initialize_by(title: ";
    assert forall i :: 0 <= i < |a| ==> !Shell.IsSpecial(a[i]);
    assert forall i :: 0 <= i < |b| ==> !Shell.IsSpecial(b[i]);
  }

  lemma SaveLineEnd()
    ensures SaveLine[|SaveLine| - 1] == '!'
  {
  }

  lemma PaddingIsWhitespace()
    ensures AllWhitespace("\n") && AllWhitespace("\n  ")
  {
    assert "\n  "[0] == '\n' && "\n  "[1] == ' ' && "\n  "[2] == ' ';
  }

  lemma {:induction false} LinesEnds(f: string, x1: string, x2: string, x3: string, x4: string,
                                     x5: string, x6: string, x7: string, x8: string, l: string)
    requires f != [] && l != []
    ensures var c := f + x1 + x2 + x3 + x4 + x5 + x6 + x7 + x8 + l;
            c[0] == f[0] && c[|c| - 1] == l[|l| - 1]
  {
    var c := f + x1 + x2 + x3 + x4 + x5 + x6 + x7 + x8 + l;
    assert c == f + (x1 + x2 + x3 + x4 + x5 + x6 + x7 + x8 + l);
  }

  /** The Ruby program for one file: the five lines of the template. */
  function RubyProgram(title: string, body: string, pubAt: string): string {
    RubyLines(title, body, pubAt)
  }

  /** The program is the template literal after `.trim()`: trimming removes only the
      template's own leading newline and trailing indentation, so the program starts with
      the `find_or_initialize_by` line holding the (already escaped) title between quotes,
      has the body verbatim between the `<<~'MD'` line and the `MD` line, has the date
      between the quotes of `Time.zone.parse`, and ends with `page.save!`. */
  lemma RubyProgramIsTrimmedTemplate(title: string, body: string, pubAt: string)
    ensures RubyProgram(title, body, pubAt) == JsTrim(RubyTemplate(title, body, pubAt))
  {
    FindCallText();
    SaveLineEnd();
    PaddingIsWhitespace();
    LinesEnds(FindCall, "\"", title, BodyOpen, body, MdLine, DateCall, "\"", pubAt, SaveLine);
    TrimPadding("\n", RubyLines(title, body, pubAt), "\n  ");
  }

  /** `${SSH_USER}@${SSH_HOST}`. */
  function SshTarget(user: string, host: string): string {
    user + "@" + host
  }

  /** `Array.prototype.join`. */
  function Join(parts: seq<string>, sep: string): string {
    if parts == [] then ""
    else if |parts| == 1 then parts[0]
    else parts[0] + sep + Join(parts[1..], sep)
  }

  lemma JoinFive(a: string, b: string, c: string, d: string, e: string, sep: string)
    ensures Join([a, b, c, d, e], sep) == a + sep + b + sep + c + sep + d + sep + e
  {
    assert Join([e], sep) == e;
    assert Join([d, e], sep) == d + sep + e by { assert [d, e][1..] == [e]; }
    assert Join([c, d, e], sep) == c + sep + (d + sep + e) by { assert [c, d, e][1..] == [d, e]; }
    assert Join([b, c, d, e], sep) == b + sep + (c + sep + (d + sep + e)) by {
      assert [b, c, d, e][1..] == [c, d, e];
    }
    assert Join([a, b, c, d, e], sep) == a + sep + (b + sep + (c + sep + (d + sep + e))) by {
      assert [a, b, c, d, e][1..] == [b, c, d, e];
    }
  }

  /** The first line of the remote shell command: change to the application directory
      and start the Rails runner on a `<<'RUBY'` heredoc. */
  const RunnerLine := "cd /opt/once/current && " + "bin/rails runner - <<'RUBY'\n"

  /** The line that closes the `RUBY` heredoc, with the newline before it. */
  const RubyClose := "\nRUBY"

  /** The remote shell command: the Ruby program fed to the Rails runner on standard input. */
  function RemoteScript(ruby: string): string {
    RunnerLine + ruby + RubyClose
  }

  /** The first three words of the ssh command, each followed by the separator: the
      command text up to the `user@host` word. */
  const SshWords := "ssh" + " " + "-o" + " " + "StrictHostKeyChecking=no" + " "

  /** The command handed to `/bin/bash`: the ssh words, the target, and the remote script
      between double quotes. */
  function SshCommand(target: string, ruby: string): string {
    SshWords + target + " " + "\"" + RemoteScript(ruby) + "\""
  }

  /** The command is the source's five words joined by single spaces. */
  lemma SshCommandIsJoin(target: string, ruby: string)
    ensures SshCommand(target, ruby)
         == Join(["ssh", "-o", "StrictHostKeyChecking=no", target, "\"" + RemoteScript(ruby) + "\""], " ")
  {
    JoinFive("ssh", "-o", "StrictHostKeyChecking=no", target, "\"" + RemoteScript(ruby) + "\"", " ");
    Regroup3(SshWords + target + " ", "\"", RemoteScript(ruby), "\"");
  }

  /** Re-association only (see the note above `FindCall`). */
  lemma Regroup3(x: string, a: string, b: string, c: string)
    ensures x + (a + b + c) == x + a + b + c
  {
  }

  /** `s` has `pat` at position `i`. */
  predicate OccursAt(s: string, i: nat, pat: string) {
    i + |pat| <= |s| && s[i..i + |pat|] == pat
  }

  lemma OccursBetween(x: string, pat: string, y: string)
    ensures OccursAt(x + pat + y, |x|, pat)
  {
    var s := x + pat + y;
    assert forall i :: 0 <= i < |pat| ==> s[|x|..|x| + |pat|][i] == pat[i];
  }

  /** Number of characters in the program before the body. */
  function BodyStart(title: string): nat {
    |FindCall + "\"" + title + BodyOpen|
  }

  lemma {:induction false} BodyRegroup(h: string, a: string, m: string, b: string, d: string,
                                       q: string, p: string, s: string)
    ensures h + (a + m + b) + m + d + q + p + s == (h + a) + m + (b + m + (d + q + p + s))
    ensures h + (a + m + b) + m + d + q + p + s == (h + (a + m + b)) + m + (d + q + p + s)
  {
  }

  /** The program's heredoc is meant to end at the `MD` line right after the body; a body
      that holds a line `MD` of its own has that line closing the heredoc first, since
      nothing checks the body for the delimiter. */
  lemma BodyDelimiterClosesEarly(title: string, a: string, b: string, pubAt: string)
    ensures var body := a + MdLine + b;
            var r := RubyProgram(title, body, pubAt);
            && OccursAt(r, BodyStart(title) + |body|, MdLine)
            && OccursAt(r, BodyStart(title) + |a|, MdLine)
            && |a| < |body|
  {
    var body := a + MdLine + b;
    var h := FindCall + "\"" + title + BodyOpen;
    var t := DateCall + "\"" + pubAt + SaveLine;
    BodyRegroup(h, a, MdLine, b, DateCall, "\"", pubAt, SaveLine);
    OccursBetween(h + body, MdLine, t);
    OccursBetween(h + a, MdLine, b + MdLine + t);
  }

  /** The line `RUBY` with the newlines around it. */
  const RubyLine := "\nRUBY\n"

  /** Characters of the command before the Ruby program. */
  function ProgramStart(target: string): nat {
    |SshWords + target + " " + "\"" + RunnerLine|
  }

  lemma {:induction false} CommandRegroup(w: string, q: string, n: string, h: string, a: string,
                                          rl: string, b: string, t: string, c: string)
    ensures w + q + (n + (h + (a + rl + b) + t) + c) + q == (w + q + n + h + a) + rl + (b + t + c + q)
  {
  }

  /** Likewise a body line `RUBY` ends the remote script's `<<'RUBY'` heredoc inside the
      body, before the closing `RUBY` line the command puts after the program. */
  lemma BodyRubyDelimiterClosesEarly(target: string, title: string, a: string, b: string, pubAt: string)
    ensures var cmd := SshCommand(target, RubyProgram(title, a + RubyLine + b, pubAt));
            && OccursAt(cmd, ProgramStart(target) + BodyStart(title) + |a|, RubyLine)
            && ProgramStart(target) + BodyStart(title) + |a| + |RubyLine| < |cmd| - |RubyClose|
  {
    var body := a + RubyLine + b;
    var h := FindCall + "\"" + title + BodyOpen;
    var t := MdLine + DateCall + "\"" + pubAt + SaveLine;
    var w := SshWords + target + " ";
    assert RubyProgram(title, body, pubAt) == h + body + t by {
      Regroup3(h + body, MdLine + DateCall, "\"" + pubAt, SaveLine);
    }
    CommandRegroup(w, "\"", RunnerLine, h, a, RubyLine, b, t, RubyClose);
    OccursBetween(w + "\"" + RunnerLine + h + a, RubyLine, b + t + RubyClose + "\"");
  }

  lemma RunnerLineText()
    ensures Shell.Plain(RunnerLine)
  {
    var a, b := "cd /opt/once/current && ", "bin/rails runner - <<'RUBY'\n";
    assert forall i :: 0 <= i < |a| ==> !Shell.IsSpecial(a[i]);
    assert forall i :: 0 <= i < |b| ==> !Shell.IsSpecial(b[i]);
  }

  lemma {:induction false} QuoteRegroup(n: string, f: string, q: string, rest: string, c: string)
    ensures n + (f + q + rest) + c == (n + f) + q + (rest + c)
  {
  }

  /** The program's own quotes around the title are not escaped for the double-quoted ssh
      argument that carries it: whatever the title, body and date, Bash does not read
      that argument as one literal string, because it ends at the `"` after `title: `. */
  lemma ArgumentQuoteEndsAtTitle(title: string, body: string, pubAt: string)
    ensures Shell.DoubleQuotedValue(RemoteScript(RubyProgram(title, body, pubAt))) == None
  {
    var rest := title + BodyOpen + body + MdLine + DateCall + "\"" + pubAt + SaveLine;
    assert RubyProgram(title, body, pubAt) == FindCall + "\"" + rest by {
      Regroup3(FindCall + "\"", title + BodyOpen + body + MdLine + DateCall, "\"" + pubAt, SaveLine);
    }
    QuoteRegroup(RunnerLine, FindCall, "\"", rest, RubyClose);
    FindCallText();
    RunnerLineText();
    Shell.UnescapedSpecialBreaksReading(RunnerLine + FindCall, '"', rest + RubyClose);
  }
}
