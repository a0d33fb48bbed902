/**
 * The loop of scripts/import-chapters.js: the `.md` entries of the content directory, in
 * the order the listing gives, each become one ssh command; each command that succeeds
 * applies one upsert to the remote page table, and the first that fails stops the run.
 */
module Importer {
  import opened Wrappers
  import Names
  import Script
  import Pages

  /** One directory entry and the text `readFileSync` gives for it. */
  datatype Entry = Entry(name: string, contents: string)

  /** What the loop body prepares for one file: the command it hands to the shell, and the
      write the remote program makes when it runs to the end. */
  datatype Job = Job(command: string, write: Pages.Write)

  /** What a run leaves behind: the page table, the commands issued in order, and whether
      the loop got through every file. */
  datatype Outcome = Outcome(store: Pages.Store, commands: seq<string>, completed: bool)

  /** Every entry name is a single path component, as `readdirSync` returns them. */
  predicate Listing(dir: seq<Entry>) {
    forall i :: 0 <= i < |dir| ==> Names.EntryName(dir[i].name)
  }

  /** The filter `extname(f) === ".md"`. */
  predicate IsChapter(e: Entry)
    requires Names.EntryName(e.name)
  {
    Names.Extname(e.name) == ".md"
  }

  /** The entries the loop visits, in listing order. */
  function Chapters(dir: seq<Entry>): (files: seq<Entry>)
    requires Listing(dir)
    ensures Listing(files)
  {
    if dir == [] then []
    else if IsChapter(dir[0]) then [dir[0]] + Chapters(dir[1..])
    else Chapters(dir[1..])
  }

  /** The command the loop builds for one file: the ssh command around the Ruby program
      that holds the escaped title, the raw body (the escaped body `bodyEsc` is computed and
      never used) and the publish date. */
  function ChapterCommand(target: string, e: Entry): string
    requires Names.EntryName(e.name)
  {
    Script.SshCommand(target, Script.RubyProgram(Names.Title(e.name), e.contents, Names.PubAt(e.name)))
  }

  /** What the program of one file is written to ask of the table: the page titled after
      the file gets the file's text as body, and the file's date when it has none. This is
      the intended upsert; what Bash and Ruby actually make of the composed command (see
      `Script.ArgumentQuoteEndsAtTitle`) is not modelled. */
  function WriteOf(e: Entry): Pages.Write
    requires Names.EntryName(e.name)
  {
    Pages.Write(Names.DerivedTitle(e.name), e.contents, Names.PubAt(e.name))
  }

  /** The loop body for one file. */
  function Prepare(target: string, e: Entry): Job
    requires Names.EntryName(e.name)
  {
    Job(ChapterCommand(target, e), WriteOf(e))
  }

  /** The jobs of a sequence of files, in order. */
  function Jobs(target: string, files: seq<Entry>): seq<Job>
    requires Listing(files)
  {
    seq(|files|, i requires 0 <= i < |files| => Prepare(target, files[i]))
  }

  /** The commands for a sequence of files, in order. */
  function Commands(target: string, files: seq<Entry>): seq<string>
    requires Listing(files)
  {
    seq(|files|, i requires 0 <= i < |files| => ChapterCommand(target, files[i]))
  }

  /** The writes of a sequence of files, in order. */
  function Writes(files: seq<Entry>): seq<Pages.Write>
    requires Listing(files)
  {
    seq(|files|, i requires 0 <= i < |files| => WriteOf(files[i]))
  }

  /** The page table after the programs of `files` all succeeded, one after the other. */
  function Apply(files: seq<Entry>, s: Pages.Store): Pages.Store
    requires Listing(files)
  {
    Pages.Batch(s, Writes(files))
  }

  /** The commands of a sequence of jobs. */
  function CommandsOf(jobs: seq<Job>): seq<string> {
    seq(|jobs|, i requires 0 <= i < |jobs| => jobs[i].command)
  }

  /** The writes of a sequence of jobs. */
  function WritesOf(jobs: seq<Job>): seq<Pages.Write> {
    seq(|jobs|, i requires 0 <= i < |jobs| => jobs[i].write)
  }

  /** Number of runs that succeed before the first failure. */
  function Succeeded(exitOk: seq<bool>): (n: nat)
    ensures n <= |exitOk|
    ensures forall i :: 0 <= i < n ==> exitOk[i]
    ensures n < |exitOk| ==> !exitOk[n]
  {
    if exitOk == [] || !exitOk[0] then 0 else 1 + Succeeded(exitOk[1..])
  }

  /** Number of commands issued: one per success, and the failing one if any. */
  function Issued(exitOk: seq<bool>): (m: nat)
    ensures m <= |exitOk|
  {
    var n := Succeeded(exitOk);
    if n == |exitOk| then n else n + 1
  }

  /** The commands issued before `o`, followed by those of `o`. */
  function After(cmds: seq<string>, o: Outcome): Outcome {
    Outcome(o.store, cmds + o.commands, o.completed)
  }

  /**
   * Running jobs in order. `exitOk[i]` is whether the remote side exits with status 0 for
   * the i-th job: `execSync` throws on any other status, which ends the loop with the
   * table as the earlier jobs left it.
   */
  function Run(jobs: seq<Job>, exitOk: seq<bool>, s: Pages.Store): Outcome
    requires |exitOk| == |jobs|
    decreases jobs
  {
    if jobs == [] then Outcome(s, [], true)
    else if !exitOk[0] then Outcome(s, [jobs[0].command], false)
    else After([jobs[0].command], Run(jobs[1..], exitOk[1..], Pages.Perform(s, jobs[0].write)))
  }

  /** The whole import: the filtered listing, one job per file, run in order. */
  function Import(target: string, dir: seq<Entry>, exitOk: seq<bool>, s: Pages.Store): Outcome
    requires Listing(dir) && |exitOk| == |Chapters(dir)|
  {
    Run(Jobs(target, Chapters(dir)), exitOk, s)
  }

  /** One step of `Run` at position `i`. */
  lemma RunStep(jobs: seq<Job>, i: nat, exitOk: seq<bool>, s: Pages.Store)
    requires |exitOk| == |jobs| && i < |jobs|
    ensures Run(jobs[i..], exitOk[i..], s) ==
      if !exitOk[i] then Outcome(s, [jobs[i].command], false)
      else After([jobs[i].command], Run(jobs[i + 1..], exitOk[i + 1..], Pages.Perform(s, jobs[i].write)))
  {
    assert jobs[i..][0] == jobs[i] && jobs[i..][1..] == jobs[i + 1..];
    assert exitOk[i..][0] == exitOk[i] && exitOk[i..][1..] == exitOk[i + 1..];
  }

  /** One step of `Run` at position `i`, after the commands `cmds` already issued. */
  lemma RunStepAfter(jobs: seq<Job>, i: nat, exitOk: seq<bool>, cmds: seq<string>, s: Pages.Store)
    requires |exitOk| == |jobs| && i < |jobs|
    ensures After(cmds, Run(jobs[i..], exitOk[i..], s)) ==
      if !exitOk[i] then Outcome(s, cmds + [jobs[i].command], false)
      else After(cmds + [jobs[i].command], Run(jobs[i + 1..], exitOk[i + 1..], Pages.Perform(s, jobs[i].write)))
  {
    RunStep(jobs, i, exitOk, s);
    if exitOk[i] {
      var o := Run(jobs[i + 1..], exitOk[i + 1..], Pages.Perform(s, jobs[i].write));
      assert cmds + ([jobs[i].command] + o.commands) == cmds + [jobs[i].command] + o.commands;
    }
  }

  /** The loop of the source: filter the listing, then for each file build the command,
      run it, and stop at the first failure. */
  method ImportChapters(user: string, host: string, dir: seq<Entry>, exitOk: seq<bool>, store: Pages.Store)
    returns (commands: seq<string>, pages: Pages.Store, completed: bool)
    requires Listing(dir) && |exitOk| == |Chapters(dir)|
    ensures Outcome(pages, commands, completed) == Import(Script.SshTarget(user, host), dir, exitOk, store)
  {
    var target := Script.SshTarget(user, host);
    var files := Chapters(dir);
    var jobs := Jobs(target, files);
    commands, pages := [], store;
    assert jobs[0..] == jobs && exitOk[0..] == exitOk;
    for i := 0 to |files|
      invariant Run(jobs, exitOk, store) == After(commands, Run(jobs[i..], exitOk[i..], pages))
    {
      var job := jobs[i];
      RunStepAfter(jobs, i, exitOk, commands, pages);
      if !exitOk[i] {
        commands, completed := commands + [job.command], false;
        return;
      }
      commands, pages := commands + [job.command], Pages.Perform(pages, job.write);
    }
    assert jobs[|files|..] == [] && exitOk[|files|..] == [];
    assert commands + [] == commands;
    completed := true;
  }

  /** A run completes exactly when every job succeeds. */
  lemma {:induction false} RunCompletes(jobs: seq<Job>, exitOk: seq<bool>, s: Pages.Store)
    requires |exitOk| == |jobs|
    ensures Run(jobs, exitOk, s).completed <==> Succeeded(exitOk) == |exitOk|
  {
    if jobs != [] && exitOk[0] {
      RunCompletes(jobs[1..], exitOk[1..], Pages.Perform(s, jobs[0].write));
    }
  }

  /** The commands a run issues: those of the jobs that succeeded, then the failing one if
      any, in order. */
  lemma {:induction false} RunCommands(jobs: seq<Job>, exitOk: seq<bool>, s: Pages.Store)
    requires |exitOk| == |jobs|
    ensures Run(jobs, exitOk, s).commands == CommandsOf(jobs[..Issued(exitOk)])
  {
    if jobs != [] {
      if !exitOk[0] {
        assert Issued(exitOk) == 1;
      } else {
        RunCommands(jobs[1..], exitOk[1..], Pages.Perform(s, jobs[0].write));
        var m := Issued(exitOk);
        assert m == Issued(exitOk[1..]) + 1;
        CommandsOfFirst(jobs, m);
      }
    }
  }

  /** The table a run leaves: the writes of the jobs that succeeded, in order. */
  lemma {:induction false} RunStore(jobs: seq<Job>, exitOk: seq<bool>, s: Pages.Store)
    requires |exitOk| == |jobs|
    ensures Run(jobs, exitOk, s).store == Pages.Batch(s, WritesOf(jobs[..Succeeded(exitOk)]))
  {
    if jobs != [] {
      if !exitOk[0] {
        assert jobs[..0] == [];
      } else {
        var s1 := Pages.Perform(s, jobs[0].write);
        RunStore(jobs[1..], exitOk[1..], s1);
        var n := Succeeded(exitOk);
        assert n == Succeeded(exitOk[1..]) + 1;
        WritesOfFirst(jobs, n);
        Pages.BatchCons(s, jobs[0].write, WritesOf(jobs[1..][..n - 1]));
      }
    }
  }

  /** The commands of the first `m` jobs are those of the first `m` files. */
  lemma CommandsPrefix(target: string, files: seq<Entry>, m: nat)
    requires Listing(files) && m <= |files|
    ensures CommandsOf(Jobs(target, files)[..m]) == Commands(target, files[..m])
  {
  }

  /** The writes of the first `n` jobs are those of the first `n` files. */
  lemma WritesPrefix(target: string, files: seq<Entry>, n: nat)
    requires Listing(files) && n <= |files|
    ensures WritesOf(Jobs(target, files)[..n]) == Writes(files[..n])
  {
  }

  lemma CommandsOfFirst(jobs: seq<Job>, m: nat)
    requires 0 < m <= |jobs|
    ensures CommandsOf(jobs[..m]) == [jobs[0].command] + CommandsOf(jobs[1..][..m - 1])
  {
    assert jobs[..m] == [jobs[0]] + jobs[1..][..m - 1];
  }

  lemma WritesOfFirst(jobs: seq<Job>, n: nat)
    requires 0 < n <= |jobs|
    ensures WritesOf(jobs[..n]) == [jobs[0].write] + WritesOf(jobs[1..][..n - 1])
  {
    assert jobs[..n] == [jobs[0]] + jobs[1..][..n - 1];
  }

  /** The import completes exactly when every command succeeds. */
  lemma ImportCompletes(target: string, dir: seq<Entry>, exitOk: seq<bool>, s: Pages.Store)
    requires Listing(dir) && |exitOk| == |Chapters(dir)|
    ensures Import(target, dir, exitOk, s).completed <==> forall i :: 0 <= i < |exitOk| ==> exitOk[i]
  {
    RunCompletes(Jobs(target, Chapters(dir)), exitOk, s);
  }

  /** The commands issued: those of the `.md` files that succeeded, then the failing one if
      any, in listing order. */
  lemma ImportCommands(target: string, dir: seq<Entry>, exitOk: seq<bool>, s: Pages.Store)
    requires Listing(dir) && |exitOk| == |Chapters(dir)|
    ensures Import(target, dir, exitOk, s).commands == Commands(target, Chapters(dir)[..Issued(exitOk)])
  {
    RunCommands(Jobs(target, Chapters(dir)), exitOk, s);
    CommandsPrefix(target, Chapters(dir), Issued(exitOk));
  }

  /** The table: what the programs of the `.md` files that succeeded make of it, in order. */
  lemma ImportStore(target: string, dir: seq<Entry>, exitOk: seq<bool>, s: Pages.Store)
    requires Listing(dir) && |exitOk| == |Chapters(dir)|
    ensures Import(target, dir, exitOk, s).store == Apply(Chapters(dir)[..Succeeded(exitOk)], s)
  {
    RunStore(Jobs(target, Chapters(dir)), exitOk, s);
    WritesPrefix(target, Chapters(dir), Succeeded(exitOk));
  }

  /** The chapters are exactly the entries whose names are longer than three characters
      and end in `.md`. */
  lemma {:induction false} ChaptersMembers(dir: seq<Entry>)
    requires Listing(dir)
    ensures forall e :: e in Chapters(dir) <==> e in dir && Names.IsMarkdownName(e.name)
  {
    if dir != [] {
      assert Listing(dir[1..]);
      ChaptersMembers(dir[1..]);
      Names.ExtnameMarkdown(dir[0].name);
      assert forall e :: e in dir <==> e == dir[0] || e in dir[1..];
    }
  }

  /** Filtering a listing part by part. */
  lemma {:induction false} ChaptersAppend(a: seq<Entry>, b: seq<Entry>)
    requires Listing(a) && Listing(b)
    ensures Listing(a + b) && Chapters(a + b) == Chapters(a) + Chapters(b)
  {
    assert forall i :: 0 <= i < |a + b| ==> (a + b)[i] == if i < |a| then a[i] else b[i - |a|];
    if a == [] {
      assert a + b == b;
    } else {
      assert (a + b)[0] == a[0] && (a + b)[1..] == a[1..] + b;
      assert Listing(a[1..]);
      ChaptersAppend(a[1..], b);
    }
  }

  /** An entry that is not a `.md` file is skipped wherever it stands in the listing: it
      issues no command and changes nothing. */
  lemma NonChaptersIgnored(target: string, a: seq<Entry>, extra: Entry, b: seq<Entry>,
                           exitOk: seq<bool>, s: Pages.Store)
    requires Listing(a) && Listing(b) && Names.EntryName(extra.name) && !IsChapter(extra)
    requires |exitOk| == |Chapters(a) + Chapters(b)|
    ensures Listing(a + [extra] + b) && Listing(a + b)
    ensures Chapters(a + [extra] + b) == Chapters(a + b) == Chapters(a) + Chapters(b)
    ensures Import(target, a + [extra] + b, exitOk, s) == Import(target, a + b, exitOk, s)
  {
    assert Chapters([extra] + b) == Chapters(b) by {
      assert ([extra] + b)[1..] == b;
    }
    assert Listing([extra] + b);
    ChaptersAppend([extra], b);
    ChaptersAppend(a, [extra] + b);
    ChaptersAppend(a, b);
    assert a + [extra] + b == a + ([extra] + b);
  }

  /** The set of titles the files derive. */
  function DerivedTitles(files: seq<Entry>): set<string>
    requires Listing(files)
  {
    set i | 0 <= i < |files| :: Names.DerivedTitle(files[i].name)
  }

  /** A batch creates exactly one page per derived title that is not in the table yet. */
  lemma ApplyKeys(files: seq<Entry>, s: Pages.Store)
    requires Listing(files)
    ensures Apply(files, s).Keys == s.Keys + DerivedTitles(files)
  {
    Pages.BatchKeys(s, Writes(files));
    WriteTitles(files);
  }

  /** The titles of the writes are the titles the files derive. */
  lemma WriteTitles(files: seq<Entry>)
    requires Listing(files)
    ensures Pages.Titles(Writes(files)) == DerivedTitles(files)
  {
    forall t | t in DerivedTitles(files)
      ensures t in Pages.Titles(Writes(files))
    {
      var i :| 0 <= i < |files| && Names.DerivedTitle(files[i].name) == t;
      WriteTitleAt(files, i);
    }
    forall t | t in Pages.Titles(Writes(files))
      ensures t in DerivedTitles(files)
    {
      var i :| 0 <= i < |Writes(files)| && Writes(files)[i].title == t;
      WriteTitleAt(files, i);
    }
  }

  lemma WriteTitleAt(files: seq<Entry>, i: nat)
    requires Listing(files) && i < |files|
    ensures |Writes(files)| == |files|
    ensures Writes(files)[i].title == Names.DerivedTitle(files[i].name)
    ensures Writes(files)[i].title in Pages.Titles(Writes(files))
    ensures Names.DerivedTitle(files[i].name) in DerivedTitles(files)
  {
  }

  /** A second run over an unchanged directory in which every command succeeds leaves the
      table as the first run left it. */
  lemma ImportTwice(target: string, dir: seq<Entry>, exitOk: seq<bool>, s: Pages.Store)
    requires Listing(dir) && |exitOk| == |Chapters(dir)|
    requires forall i :: 0 <= i < |exitOk| ==> exitOk[i]
    ensures var first := Import(target, dir, exitOk, s);
            && first.completed
            && first.store == Apply(Chapters(dir), s)
            && Import(target, dir, exitOk, first.store).store == first.store
  {
    var files := Chapters(dir);
    ImportCompletes(target, dir, exitOk, s);
    RunCompletes(Jobs(target, files), exitOk, s);
    ImportStore(target, dir, exitOk, s);
    assert files[..|exitOk|] == files;
    var s1 := Import(target, dir, exitOk, s).store;
    ImportStore(target, dir, exitOk, s1);
    Pages.BatchIdempotent(s, Writes(files));
  }

  /** Two numbered files with the same name after the prefix, such as `01-intro.md` and
      `02-intro.md`, are one page: a single page is created for both, and it ends with the
      second file's body and the first file's date. */
  lemma RenumberedFilesShareAPage(d1: string, d2: string, rest: string, b1: string, b2: string, s: Pages.Store)
    requires d1 != [] && Names.AllDigits(d1) && d2 != [] && Names.AllDigits(d2) && Names.EntryName(rest)
    requires Names.DerivedTitle(d1 + "-" + rest + ".md") !in s
    ensures var f1, f2 := Entry(d1 + "-" + rest + ".md", b1), Entry(d2 + "-" + rest + ".md", b2);
            var k := Names.DerivedTitle(f1.name);
            && Listing([f1, f2])
            && Apply([f1, f2], s).Keys == s.Keys + {k}
            && Apply([f1, f2], s)[k] == Pages.Page(b2, Some(Names.PubAt(f1.name)), map[])
  {
    var f1, f2 := Entry(d1 + "-" + rest + ".md", b1), Entry(d2 + "-" + rest + ".md", b2);
    Names.NumberedNameIsEntry(d1, rest);
    Names.NumberedNameIsEntry(d2, rest);
    Names.RenumberingKeepsTitle(d1, d2, rest);
    WritesOfTwo(f1, f2);
    Pages.SameTitleTwice(s, WriteOf(f1), WriteOf(f2));
  }

  lemma WritesOfTwo(f1: Entry, f2: Entry)
    requires Names.EntryName(f1.name) && Names.EntryName(f2.name)
    ensures Listing([f1, f2]) && Writes([f1, f2]) == [WriteOf(f1), WriteOf(f2)]
  {
    var fs := [f1, f2];
    assert Listing(fs);
    var w := Writes(fs);
    assert w[0] == WriteOf(fs[0]) && w[1] == WriteOf(fs[1]);
    PairOf(w);
  }

  lemma PairOf<T>(w: seq<T>)
    requires |w| == 2
    ensures w == [w[0], w[1]]
  {
  }
}
