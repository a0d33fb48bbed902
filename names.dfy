/**
 * What scripts/import-chapters.js derives from a file name: the `.md` filter
 * (`extname`), the title (`basename`, the numeric prefix, hyphens to spaces, `shEscape`)
 * and the publish date (`20yy-01-01`).
 */
module Names {
  import Shell

  /** A name as a directory listing gives it: one path component, no `/`. */
  predicate EntryName(name: string) {
    '/' !in name
  }

  /** `\d` of a JavaScript regular expression without the `u` flag. */
  predicate IsDigit(c: char) {
    '0' <= c <= '9'
  }

  predicate AllDigits(s: string) {
    forall i :: 0 <= i < |s| ==> IsDigit(s[i])
  }

  /** Position of the last `c` in `s`, -1 when there is none. */
  function LastIndexOf(s: string, c: char): (r: int)
    ensures -1 <= r < |s|
    ensures r >= 0 ==> s[r] == c
    ensures forall i :: r < i < |s| ==> s[i] != c
  {
    if s == [] then -1
    else if s[|s| - 1] == c then |s| - 1
    else LastIndexOf(s[..|s| - 1], c)
  }

  /** Node's `path.extname` for one path component: from the last dot to the end,
      or nothing when there is no dot, when the only text before the last dot is
      empty (a dot file such as `.md`) and for the name `..`. */
  function Extname(name: string): string
    requires EntryName(name)
  {
    var i := LastIndexOf(name, '.');
    if i <= 0 || name == ".." then "" else name[i..]
  }

  /** The names the import's filter keeps, stated without `extname`. */
  predicate IsMarkdownName(name: string) {
    |name| > 3 && name[|name| - 3..] == ".md"
  }

  /** The filter `extname(f) === ".md"` keeps exactly the names longer than three
      characters that end in `.md`. */
  lemma ExtnameMarkdown(name: string)
    requires EntryName(name)
    ensures Extname(name) == ".md" <==> IsMarkdownName(name)
  {
    var i := LastIndexOf(name, '.');
    if IsMarkdownName(name) {
      var n := |name|;
      assert name[n - 3] == '.' && name[n - 2] == 'm' && name[n - 1] == 'd';
      assert i == n - 3;
    }
  }

  /** Node's `path.basename(name, ".md")` for one path component: the suffix is cut off
      when the name ends with it (the name `.md` itself becomes empty). */
  function BasenameMd(name: string): (stem: string)
    requires EntryName(name)
    ensures IsMarkdownName(name) ==> stem + ".md" == name
    ensures !IsMarkdownName(name) && name != ".md" ==> stem == name
  {
    if |name| >= 3 && name[|name| - 3..] == ".md" then name[..|name| - 3] else name
  }

  /** Length of the run of digits at the start of `s`. */
  function LeadingDigits(s: string): (k: nat)
    ensures k <= |s|
    ensures AllDigits(s[..k])
    ensures k < |s| ==> !IsDigit(s[k])
  {
    if s == [] || !IsDigit(s[0]) then 0
    else
      var k := 1 + LeadingDigits(s[1..]);
      assert forall i :: 1 <= i < k ==> s[..k][i] == s[1..][..k - 1][i - 1];
      k
  }

  /** `.replace(/^\d+-/, "")`: drops one leading run of digits followed by a hyphen.
      Either nothing is removed, or exactly a non-empty run of digits and one hyphen. */
  function StripNumericPrefix(s: string): (r: string)
    ensures r == s || (|r| + 2 <= |s| && s == s[..|s| - |r| - 1] + "-" + r
                       && AllDigits(s[..|s| - |r| - 1]))
  {
    var k := LeadingDigits(s);
    if 0 < k < |s| && s[k] == '-' then
      assert s == s[..k] + "-" + s[k + 1..];
      s[k + 1..]
    else s
  }

  /** The digit run of `d + "-" + rest` is `d`. */
  lemma {:induction false} LeadingDigitsBeforeDash(d: string, rest: string)
    requires AllDigits(d)
    ensures LeadingDigits(d + "-" + rest) == |d|
  {
    var s := d + "-" + rest;
    if d == [] {
      assert s[0] == '-';
    } else {
      assert s[0] == d[0];
      assert s[1..] == d[1..] + "-" + rest;
      LeadingDigitsBeforeDash(d[1..], rest);
    }
  }

  /** A digit run and a hyphen at the front are removed, whatever follows. */
  lemma StripDigitsDash(d: string, rest: string)
    requires d != [] && AllDigits(d)
    ensures StripNumericPrefix(d + "-" + rest) == rest
  {
    var s := d + "-" + rest;
    LeadingDigitsBeforeDash(d, rest);
    assert s[|d|] == '-';
    assert s[|d| + 1..] == rest;
  }

  /** A name without a digit run and a hyphen at the front is left alone. */
  lemma StripNoPrefix(s: string)
    requires forall k :: 0 < k < |s| && AllDigits(s[..k]) ==> s[k] != '-'
    ensures StripNumericPrefix(s) == s
  {
  }

  /** `.replace(/-/g, " ")`: every hyphen becomes a space; nothing else changes. */
  function DashesToSpaces(s: string): (r: string)
    ensures |r| == |s|
    ensures forall i :: 0 <= i < |s| ==> r[i] == if s[i] == '-' then ' ' else s[i]
  {
    if s == [] then []
    else [if s[0] == '-' then ' ' else s[0]] + DashesToSpaces(s[1..])
  }

  /** The page title before escaping: the base name without `.md`, without one leading
      digits-hyphen prefix, with hyphens turned into spaces. */
  function DerivedTitle(name: string): (t: string)
    requires EntryName(name)
    ensures '-' !in t
  {
    var t := DashesToSpaces(StripNumericPrefix(BasenameMd(name)));
    assert forall i :: 0 <= i < |t| ==> t[i] != '-';
    t
  }

  /** The value of `title` in the source: the derived title escaped for Bash. */
  function Title(name: string): string
    requires EntryName(name)
  {
    Shell.ShEscape(DerivedTitle(name))
  }

  /** A numbered name `d-rest.md` is a single path component when `rest` is. */
  lemma NumberedNameIsEntry(d: string, rest: string)
    requires AllDigits(d) && EntryName(rest)
    ensures EntryName(d + "-" + rest + ".md")
  {
    var name := d + "-" + rest + ".md";
    forall i | 0 <= i < |name|
      ensures name[i] != '/'
    {
      if i < |d| {
        assert name[i] == d[i];
      } else if |d| < i < |d| + 1 + |rest| {
        assert name[i] == rest[i - |d| - 1];
      }
    }
  }

  /** The derived title is the stem with its numeric prefix removed and hyphens replaced. */
  lemma DerivedTitleOfMarkdown(d: string, rest: string)
    requires d != [] && AllDigits(d) && EntryName(rest)
    ensures DerivedTitle(d + "-" + rest + ".md") == DashesToSpaces(rest)
  {
    var name := d + "-" + rest + ".md";
    NumberedNameIsEntry(d, rest);
    assert name[|name| - 3..] == ".md";
    assert BasenameMd(name) == d + "-" + rest;
    StripDigitsDash(d, rest);
  }

  /** Renumbering a file keeps its identity: names that differ only in the leading
      digits-hyphen prefix give the same title, hence the same page. */
  lemma RenumberingKeepsTitle(d1: string, d2: string, rest: string)
    requires d1 != [] && AllDigits(d1) && d2 != [] && AllDigits(d2) && EntryName(rest)
    ensures DerivedTitle(d1 + "-" + rest + ".md") == DerivedTitle(d2 + "-" + rest + ".md")
  {
    DerivedTitleOfMarkdown(d1, rest);
    DerivedTitleOfMarkdown(d2, rest);
  }

  /** Only the first prefix goes: `d1-d2-rest.md` is titled `d2 rest` (with the hyphens
      of `rest` turned into spaces), so `01-02-x.md` is titled `02 x`. */
  lemma TitleKeepsSecondPrefix(d1: string, d2: string, rest: string)
    requires d1 != [] && AllDigits(d1) && AllDigits(d2) && EntryName(rest)
    ensures DerivedTitle(d1 + "-" + (d2 + "-" + rest) + ".md") == d2 + " " + DashesToSpaces(rest)
  {
    DigitsDashEntry(d2, rest);
    DerivedTitleOfMarkdown(d1, d2 + "-" + rest);
    DashesAfterDigits(d2, rest);
  }

  lemma DigitsDashEntry(d: string, rest: string)
    requires AllDigits(d) && EntryName(rest)
    ensures EntryName(d + "-" + rest)
  {
    var r := d + "-" + rest;
    forall i | 0 <= i < |r|
      ensures r[i] != '/'
    {
      if i < |d| {
        assert r[i] == d[i];
      } else if i > |d| {
        assert r[i] == rest[i - |d| - 1];
      }
    }
  }

  /** A digit run keeps its characters when hyphens become spaces. */
  lemma DashesAfterDigits(d: string, rest: string)
    requires AllDigits(d)
    ensures DashesToSpaces(d + "-" + rest) == d + " " + DashesToSpaces(rest)
  {
    var r, t := d + "-" + rest, DashesToSpaces(d + "-" + rest);
    var x := DashesToSpaces(rest);
    assert forall i :: 0 <= i < |d| ==> r[i] == d[i] && IsDigit(d[i]);
    assert forall i :: |d| < i < |r| ==> r[i] == rest[i - |d| - 1];
    assert forall i :: 0 <= i < |t| ==> t[i] == (d + " " + x)[i];
  }

  /** Turning hyphens into spaces works word by word. */
  lemma DashesBetweenWords(a: string, b: string)
    requires '-' !in a && '-' !in b
    ensures DashesToSpaces(a + "-" + b) == a + " " + b
  {
    var s, r := a + "-" + b, DashesToSpaces(a + "-" + b);
    assert forall i :: 0 <= i < |a| ==> s[i] == a[i];
    assert forall i :: |a| < i < |s| ==> s[i] == b[i - |a| - 1];
    assert forall i :: 0 <= i < |r| ==> r[i] == (a + " " + b)[i];
  }

  /** A numbered two-word name such as `07-deep-dive.md` gets the title `deep dive`. */
  lemma TitleOfTwoWords(d: string, a: string, b: string)
    requires d != [] && AllDigits(d)
    requires '-' !in a && '-' !in b && '/' !in a && '/' !in b
    ensures DerivedTitle(d + "-" + (a + "-" + b) + ".md") == a + " " + b
  {
    DerivedTitleOfMarkdown(d, a + "-" + b);
    DashesBetweenWords(a, b);
  }

  /** True when the name starts with two digits (`/^(\d{2})/` matches). */
  predicate StartsWithTwoDigits(name: string) {
    |name| >= 2 && IsDigit(name[0]) && IsDigit(name[1])
  }

  /** `file.match(/^(\d{2})/)?.[1] || "25"`. */
  function Year(name: string): string {
    if StartsWithTwoDigits(name) then name[..2] else "25"
  }

  /** `20${yy}-01-01`. */
  function PubAt(name: string): string {
    "20" + Year(name) + "-01-01"
  }

  /** The date is always ten characters on the first of January 20yy, in which yy are the
      name's first two characters when they are digits and 25 otherwise. */
  lemma PubAtShape(name: string)
    ensures var d := PubAt(name);
            && |d| == 10 && d[..2] == "20" && AllDigits(d[2..4]) && d[4..] == "-01-01"
            && (StartsWithTwoDigits(name) ==> d[2..4] == name[..2])
            && (!StartsWithTwoDigits(name) ==> d == "2025-01-01")
  {
    var d := PubAt(name);
    assert d[..2] == "20" && d[2..4] == Year(name) && d[4..] == "-01-01";
  }

  /** A single leading digit falls back to 2025; a long digit run gives its first two digits. */
  lemma PubAtExamples()
    ensures PubAt("07-deep-dive.md") == "2007-01-01"
    ensures PubAt("deep-dive.md") == "2025-01-01"
    ensures PubAt("1-intro.md") == "2025-01-01"
    ensures PubAt("123-intro.md") == "2012-01-01"
  {
    assert !StartsWithTwoDigits("1-intro.md");
    assert !StartsWithTwoDigits("deep-dive.md");
  }
}
