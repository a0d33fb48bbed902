# writebook-ops chapter import, modelled in Dafny

`scripts/import-chapters.js` bulk-imports the Markdown files of the `content` directory
into the pages of a Writebook (Rails) installation. For every `.md` entry it:

- derives a page title from the file name;
- derives a publish date from the file name;
- fills a fixed Ruby template: find or create the page by title, set its body, set
  `published_at` only when it is empty, save;
- wraps that program in an ssh command that feeds it to `bin/rails runner` on the remote
  host.

The commands run one after the other, and the first command that fails ends the run.

The model has six modules:

- `Wrappers`: the `Option` type.
- `Shell`: `shEscape`, and how Bash reads the text between the quotes of a double-quoted
  word (`DoubleQuotedValue`).
  - Proved: the round trip (Bash reads `shEscape(s)` back as `s`), injectivity, the
    length of the result, and exactly when the result equals the input.
  - Also proved: an unescaped `"` or backtick between double quotes stops the text from
    being read literally. So does an unescaped `$` before a character that starts an
    expansion; any other `$` is kept.
- `Names`: what the script derives from a single file name.
  - The `extname(f) === ".md"` filter, modelled on Node's `path.extname` for a name
    without `/`.
  - `basename(f, ".md")`, the `^\d+-` prefix removal, hyphens to spaces, and the title.
  - The date `20yy-01-01`.
  - Proved: only one prefix is removed, renumbered files keep their title, and the title
    holds no hyphen. Also proved: the shape of the date, and when it falls back to 2025.
- `Script`: the Ruby program and the ssh command.
  - JavaScript's `trim`: the program is the trimmed template literal.
  - `Array.prototype.join`: the command is the five words joined by spaces.
  - Proved: a body line `MD` or `RUBY` closes a heredoc early.
  - Proved: the program's own `"` ends the double-quoted ssh argument at `title: `,
    because those quotes are not escaped for Bash.
- `Pages`: the effect of one program run on an abstract table mapping titles to pages.
  - `Upsert` covers `find_or_initialize_by`, the unconditional body, `published_at ||=`
    and `save!`.
  - `Batch` is a sequence of successful runs.
  - Proved: idempotence, that pages with other titles are untouched, and that the last
    write wins the body while the first write sets the date.
- `Importer`: the loop, as the method `ImportChapters`.
  - The method is proved equal to the recursive specification `Import`.
  - Lemmas about `Import` give the commands issued, the final table, completion, the
    ignored non-`.md` entries, running twice and renumbered files.

Inputs the script reads from its environment are parameters:

- the directory listing, with each file's text, is a sequence of `Entry` values;
- `SSH_USER` and `SSH_HOST` are strings;
- whether each remote run exits with status 0 is one boolean per file, `exitOk`.

Behaviour of the script worth knowing, which the model keeps:

- The loop stops at the first command whose exit status is not 0, because `execSync`
  throws. It does not go on to the remaining files.
- `bodyEsc` (`scripts/import-chapters.js:29`) is computed and never used: the program
  holds the raw body.
- Nothing checks the body for the heredoc delimiters `MD` and `RUBY`. A body line equal to
  either one ends that heredoc early (`Script.BodyDelimiterClosesEarly`,
  `Script.BodyRubyDelimiterClosesEarly`). The script does not reject such a body.
- The title in the Ruby program is escaped for Bash, but the quotes around it are not.
  Bash therefore never reads the ssh argument as one literal string
  (`Script.ArgumentQuoteEndsAtTitle`).
  - The model composes the command exactly as written and proves this about it.
  - The actual effect depends on how Bash and ssh split the words, which is outside
    this model.
- The page table is keyed by the derived title before escaping, and a successful run has
  the effect the template is written to have (`Importer.WriteOf`). That is not what reaches
  Ruby. Bash's double quotes close at `title: "` (`Script.ArgumentQuoteEndsAtTitle`), so
  the title and the date arrive without their quotes. The body sits raw in a double-quoted
  stretch, so local Bash expands its `$` and backticks.

`ImportChapters` builds the job for every file (the command and the table write it
stands for) before the loop, then issues the jobs in order. The script builds each
command at the top of its iteration. Building a job is pure, so the commands issued and
their order are the same.

## Model

| member | source | states |
|---|---|---|
| Shell.ShEscape | scripts/import-chapters.js:25 | the escaped text is longer than the input by exactly the number of `$`, backtick, `"` and `\` characters in it |
| Shell.ShEscapeAppend | scripts/import-chapters.js:25 | escaping distributes over concatenation: each character is escaped on its own and the order is kept |
| Shell.CountSpecialZero | scripts/import-chapters.js:25 | a text has no characters to escape exactly when it contains none of the four special characters |
| Shell.ShEscapeIdentity | scripts/import-chapters.js:24-25 | `shEscape` returns its input unchanged if and only if none of the four special characters occurs |
| Shell.EscapeCharRead | scripts/import-chapters.js:25 | Bash reads one escaped character back as that character, ahead of the rest |
| Shell.ShEscapeRoundTrip | scripts/import-chapters.js:24-25 | for every text, Bash's double-quote reading of `shEscape(s)` succeeds and gives `s` |
| Shell.ShEscapeInjective | scripts/import-chapters.js:25 | different texts have different escapes |
| Shell.PlainCons | scripts/import-chapters.js:25 | a text is free of special characters exactly when its first character and its rest are |
| Shell.PlainPrefixRead | scripts/import-chapters.js:56 | text without special characters is read as itself, ahead of whatever follows |
| Shell.UnescapedSpecialBreaksReading | scripts/import-chapters.js:56 | an unescaped `"` or backtick after plain text makes the double-quoted reading fail |
| Shell.UnescapedDollarRead | scripts/import-chapters.js:56 | an unescaped `$` after plain text makes the reading fail exactly when the next character starts an expansion (a name, a digit, `{`, `(`, `[` or a special parameter); otherwise the `$` is read as itself |
| Shell.TrailingDollarRead | scripts/import-chapters.js:56 | a `$` at the end of the double-quoted text is read as itself |
| Shell.DollarExamples | scripts/import-chapters.js:56 | `"a$ b"` and `"x$"` are read literally; `"$HOME"` is not |
| Names.Extname | scripts/import-chapters.js:27 | Node's `path.extname` for one path component: from the last dot to the end, or empty when there is no dot, the dot is the first character, or the name is `..`; characterized by `Names.ExtnameMarkdown` |
| Names.LastIndexOf | scripts/import-chapters.js:27 | the index found holds the character, no later position does, and -1 means the character does not occur |
| Names.ExtnameMarkdown | scripts/import-chapters.js:27 | `extname(f) === ".md"` holds exactly for names longer than three characters that end in `.md` |
| Names.BasenameMd | scripts/import-chapters.js:32 | a name ending in `.md` loses exactly that suffix; any other name except `.md` is kept whole |
| Names.LeadingDigits | scripts/import-chapters.js:33 | the length of the leading digit run: everything before it is digits, and the next character is not a digit |
| Names.StripNumericPrefix | scripts/import-chapters.js:33 | either nothing is removed, or exactly a non-empty digit run and one hyphen at the front |
| Names.LeadingDigitsBeforeDash | scripts/import-chapters.js:33 | the digit run of `d-rest` is exactly `d` |
| Names.StripDigitsDash | scripts/import-chapters.js:33 | a digit run and a hyphen at the front are removed, whatever follows them |
| Names.StripNoPrefix | scripts/import-chapters.js:33 | a name with no digits-hyphen prefix is left unchanged |
| Names.DashesToSpaces | scripts/import-chapters.js:34 | same length; each hyphen becomes a space and every other character stays in place |
| Names.DerivedTitle | scripts/import-chapters.js:31-35 | the unescaped title contains no hyphen |
| Names.Title | scripts/import-chapters.js:31-35 | the derived title escaped with `shEscape`; what Bash reads of it is the derived title (`Shell.ShEscapeRoundTrip`) |
| Names.Year | scripts/import-chapters.js:37 | the name's first two characters when both are digits, else `25`; facts in `Names.PubAtShape` |
| Names.PubAt | scripts/import-chapters.js:38 | `20` + the year + `-01-01`; facts in `Names.PubAtShape` and `Names.PubAtExamples` |
| Names.NumberedNameIsEntry | scripts/import-chapters.js:27 | `d-rest.md` is a single path component when `rest` is |
| Names.DerivedTitleOfMarkdown | scripts/import-chapters.js:31-35 | the title of `d-rest.md` is `rest` with its hyphens turned into spaces |
| Names.RenumberingKeepsTitle | scripts/import-chapters.js:31-35 | names that differ only in the leading digit run give the same title, so the same page |
| Names.TitleKeepsSecondPrefix | scripts/import-chapters.js:31-35 | only the first prefix goes: `d1-d2-rest.md` is titled `d2` followed by a space and `rest` with its hyphens turned into spaces (so `01-02-x.md` is titled `02 x`) |
| Names.DigitsDashEntry | scripts/import-chapters.js:27 | `d-rest` is a single path component when `d` is digits and `rest` is one |
| Names.DashesAfterDigits | scripts/import-chapters.js:34 | a digit run and its hyphen become the digit run and a space, and the rest has its hyphens turned into spaces |
| Names.DashesBetweenWords | scripts/import-chapters.js:34 | hyphen-joined words without hyphens of their own become space-joined words |
| Names.TitleOfTwoWords | scripts/import-chapters.js:31-35 | a numbered two-word name such as `07-deep-dive.md` is titled `deep dive` |
| Names.PubAtShape | scripts/import-chapters.js:37-38 | the date is ten characters `20yy-01-01` with `yy` digits: the name's first two characters when both are digits, otherwise `2025-01-01` |
| Names.PubAtExamples | scripts/import-chapters.js:37-38 | `07-…` gives 2007, and a name without a leading digit falls back to 2025. A single leading digit also falls back, and `123-…` gives 2012 |
| Script.JsTrim | scripts/import-chapters.js:50 | `String.prototype.trim`: drops JavaScript whitespace and line terminators at both ends; characterized by `Script.TrimPadding` |
| Script.RubyTemplate | scripts/import-chapters.js:43-50 | the template literal before `.trim()`: a newline, the five Ruby lines, a newline and two spaces |
| Script.RubyProgram | scripts/import-chapters.js:43-50 | the five Ruby lines with the title, body and date in place; equal to the trimmed template by `Script.RubyProgramIsTrimmedTemplate` |
| Script.SshTarget | scripts/import-chapters.js:17 | `user@host` |
| Script.Join | scripts/import-chapters.js:53-57 | `Array.prototype.join`; for five words, `Script.JoinFive` |
| Script.SshCommand | scripts/import-chapters.js:53-57 | the ssh words, the target and the double-quoted remote script; equal to the source's `join` by `Script.SshCommandIsJoin` |
| Script.TrimPadding | scripts/import-chapters.js:50 | `trim` removes exactly the whitespace around a text that starts and ends with something else |
| Script.RubyProgramIsTrimmedTemplate | scripts/import-chapters.js:43-50 | the program is the trimmed template literal. It runs from `page = Page.find_or_initialize_by(title: "` with the escaped title, through the raw body between the `<<~'MD'` line and the `MD` line, to the date inside `Time.zone.parse("…")`, and ends with `page.save!` |
| Script.JoinFive | scripts/import-chapters.js:53-57 | joining five words puts the separator between each adjacent pair |
| Script.SshCommandIsJoin | scripts/import-chapters.js:53-57 | the command is `ssh -o StrictHostKeyChecking=no user@host` followed by one word: the double-quoted runner line, the program and the `RUBY` line, joined by single spaces |
| Script.OccursBetween | scripts/import-chapters.js:45-47 | a text put between two others occurs right after the first |
| Script.BodyDelimiterClosesEarly | scripts/import-chapters.js:45-47 | a body holding an `MD` line puts an `MD` line into the program before the one that follows the body |
| Script.BodyRubyDelimiterClosesEarly | scripts/import-chapters.js:46-56 | a body holding a `RUBY` line puts a `RUBY` line into the command before the closing one |
| Script.ArgumentQuoteEndsAtTitle | scripts/import-chapters.js:44-56 | whatever the title, body and date, Bash's reading of the double-quoted ssh argument fails: it ends at the unescaped `"` after `title: ` |
| Pages.FindOrInitialize | scripts/import-chapters.js:44 | the stored page when the title exists, otherwise a fresh page with no date and no other attributes |
| Pages.Upsert | scripts/import-chapters.js:44-49 | the page is created if absent and its body is set. Its date is set only when empty, its other attributes are kept, and every other page is unchanged |
| Pages.UpsertDates | scripts/import-chapters.js:48 | after an upsert the page has a publish date |
| Pages.UpsertKeepsDate | scripts/import-chapters.js:48 | a page that has a date keeps it, whatever date a later import derives |
| Pages.UpsertTwice | scripts/import-chapters.js:44-49 | two upserts of one title: the second body wins, the first date stays |
| Pages.UpsertIdempotent | scripts/import-chapters.js:44-49 | applying the same upsert twice gives the same table as applying it once |
| Pages.UpsertCommutes | scripts/import-chapters.js:44-49 | upserts of different titles do not interfere |
| Pages.Perform | scripts/import-chapters.js:44-49 | one program run to the end: the upsert its write asks for |
| Pages.Batch | scripts/import-chapters.js:27-60 | the programs of a sequence of writes run to the end in order; page by page in `Pages.BatchAt` |
| Pages.BatchCons | scripts/import-chapters.js:27-60 | a batch is its first write followed by the rest |
| Pages.TitledCons | scripts/import-chapters.js:27-60 | some write is for a title exactly when the first is or some later one is |
| Pages.SomeWriteTitled | scripts/import-chapters.js:27-60 | a last body and a first date exist for a title if and only if some write is for it |
| Pages.BatchAt | scripts/import-chapters.js:27-60 | after a batch, a title some write is for has the last such body and keeps its own date, or else gets the first such date. Its other attributes are kept, untouched pages stay as they were, and no other page appears |
| Pages.BatchAgainAt | scripts/import-chapters.js:27-60 | running a batch again leaves each page of its result as it was |
| Pages.BatchIdempotent | scripts/import-chapters.js:3 | running the same batch on the table it produced changes nothing |
| Pages.BatchKeys | scripts/import-chapters.js:27-60 | a batch adds exactly the titles written that were not in the table yet |
| Pages.SameTitleTwice | scripts/import-chapters.js:44-49 | two writes for one new title create one page with the second body and the first date |
| Importer.Chapters | scripts/import-chapters.js:27 | the filtered listing is again a listing of single path components |
| Importer.ChaptersMembers | scripts/import-chapters.js:27 | an entry is visited if and only if it is in the listing and its name is longer than three characters and ends in `.md` |
| Importer.IsChapter | scripts/import-chapters.js:27 | the filter `extname(f) === ".md"`; characterized by `Importer.ChaptersMembers` |
| Importer.ChaptersAppend | scripts/import-chapters.js:27 | filtering a listing part by part gives the filtered parts, in order |
| Importer.NonChaptersIgnored | scripts/import-chapters.js:27 | an entry that is not `.md`, anywhere in the listing, issues no command and changes nothing |
| Importer.ChapterCommand | scripts/import-chapters.js:28-57 | the command for one file: the ssh command around the program holding the escaped title, the raw body (not `bodyEsc`) and the date |
| Importer.WriteOf | scripts/import-chapters.js:31-49 | the upsert the program of one file is written to perform: the derived title, the file's text, the date |
| Importer.Run | scripts/import-chapters.js:27-60 | running jobs in order, each success applying its write, the first failure ending the run; facts in `RunCompletes`, `RunCommands`, `RunStore` |
| Importer.Import | scripts/import-chapters.js:27-60 | the run of the jobs of the filtered listing; facts in `ImportCompletes`, `ImportCommands`, `ImportStore` |
| Importer.Succeeded | scripts/import-chapters.js:59 | the number of leading successes: all runs before it succeed, and the run at it, if any, fails |
| Importer.Issued | scripts/import-chapters.js:59 | no more commands are issued than there are files |
| Importer.RunStep | scripts/import-chapters.js:27-60 | one iteration of the run at position `i` |
| Importer.RunStepAfter | scripts/import-chapters.js:27-60 | one iteration of the run at position `i`, after the commands already issued |
| Importer.ImportChapters | scripts/import-chapters.js:27-60 | the loop's commands, final table and completion flag are those of `Import` |
| Importer.RunCompletes | scripts/import-chapters.js:59 | a run completes exactly when every job succeeds |
| Importer.RunCommands | scripts/import-chapters.js:27-59 | the commands issued are those of the jobs up to and including the first failure, in order |
| Importer.RunStore | scripts/import-chapters.js:27-59 | the final table is the batch of the writes of the jobs before the first failure |
| Importer.CommandsPrefix | scripts/import-chapters.js:53-57 | the commands of the first `m` jobs are those built for the first `m` files |
| Importer.WritesPrefix | scripts/import-chapters.js:44-49 | the writes of the first `n` jobs are those of the first `n` files |
| Importer.CommandsOfFirst | scripts/import-chapters.js:27-59 | the commands of a non-empty prefix of jobs start with the first job's command |
| Importer.WritesOfFirst | scripts/import-chapters.js:27-59 | the writes of a non-empty prefix of jobs start with the first job's write |
| Importer.ImportCompletes | scripts/import-chapters.js:59 | the import completes if and only if every command exits with status 0 |
| Importer.ImportCommands | scripts/import-chapters.js:27-59 | one command per `.md` file, in listing order, up to and including the first that fails |
| Importer.ImportStore | scripts/import-chapters.js:27-59 | the table is what the programs of the `.md` files before the first failure make of it, in order |
| Importer.WriteTitleAt | scripts/import-chapters.js:31-35 | the write of position `i` is for the title derived from that file's name |
| Importer.WriteTitles | scripts/import-chapters.js:31-44 | the writes are for exactly the titles the files derive |
| Importer.ApplyKeys | scripts/import-chapters.js:44 | a successful batch creates exactly one page per derived title not yet in the table |
| Importer.ImportTwice | scripts/import-chapters.js:3 | a second complete run over an unchanged directory leaves the table as the first left it |
| Importer.WritesOfTwo | scripts/import-chapters.js:44-49 | the writes of two files are those two files' writes, in order |
| Importer.RenumberedFilesShareAPage | scripts/import-chapters.js:31-49 | `01-intro.md` and `02-intro.md` make one new page, with the second body and the first date |

## Left out

- The `SSH_USER`/`SSH_HOST` check, its error message and `process.exit(1)`
  (`scripts/import-chapters.js:19-22`): they are environment I/O. The model takes the two
  values as parameters.
- The progress line `console.log` (`scripts/import-chapters.js:40`): output only.
- `readdirSync` and `readFileSync`: the listing and each file's text are given as a
  sequence of entries. The script reads each file just before its command runs; the model
  has all texts up front.
- `execSync`, the ssh transport, authentication and the streaming of the remote output:
  only the exit status of each run is modelled, as `exitOk`.
- How Bash splits the composed command into words, and how ssh and the remote shell
  reassemble it. The model states what Bash's double-quote reading makes of the argument,
  not what finally reaches `bin/rails runner`.
- Ruby's `<<~` heredoc, which strips common indentation, and Ruby parsing in general. The
  model shows only where the `MD` and `RUBY` lines fall in the text.
- What a successful run actually does at the remote end. The model runs the intended
  upsert (`Importer.WriteOf`). It does not model that the title and the date reach Ruby
  unquoted, that local Bash expands `$` and backticks in the body, or that `<<~` dedents
  the body and appends a newline to it.
- Rails persistence: partial failure between `find_or_initialize_by` and `save!`,
  validation errors and atomicity. A run that fails leaves the table unchanged in the
  model. A run that succeeds performs the whole upsert.
- `scripts/teaser-maker.mjs` and `scripts/teaser-tweet.mjs`: they are network and
  remote-execution wrappers, not part of this model.
- Strings are sequences of Unicode characters. JavaScript's UTF-16 code units and
  surrogate pairs are not distinguished. (`\d` is the ASCII digits either way, as in a
  JavaScript regular expression.)
