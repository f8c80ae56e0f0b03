/** The record-building part of `generate_datasets`: for each configured
    language, for each of its repositories, the repository's chunks become
    snippet records carrying the repository's provenance. Records are
    returned in write order instead of being written to a store. */
module Records {
  import opened Wrappers
  import opened Lines
  import opened Discovery
  import opened Chunker
  import opened Corpus

  /** The `license` entry of a repository's metadata: JSON `null` or an object. */
  datatype LicenseField = Null | Object(fields: map<string, string>)

  /** One repository listed in a language's metadata. */
  datatype RepoMeta = RepoMeta(name: string, githubRepoUrl: string, commitHash: string, license: LicenseField)

  /** One configured language: its key, its extensions and its repositories. */
  datatype Language = Language(key: string, exts: seq<string>, repos: seq<RepoMeta>)

  /** One row of the snippets table. */
  datatype SnippetRecord = SnippetRecord(
    githubRepoUrl: string,
    commitHash: string,
    snippet: string,
    license: Option<string>,
    language: string,
    repoFileName: seq<string>,
    startingLineNumber: nat)

  /** Errors that abort the run: a truthy license object without `spdx_id`
      (a `KeyError`), and a repository directory that cannot be listed. */
  datatype Error = MissingSpdxId(repo: string) | NoSuchDirectory(path: seq<string>)

  /** The records written before the run ended, and the error that ended it
      early, if any. Nothing is rolled back. */
  datatype Outcome = Outcome(written: seq<SnippetRecord>, failure: Option<Error>)

  /** Python truthiness of the license entry: `null` and `{}` are false. */
  predicate Truthy(l: LicenseField)
  {
    l.Object? && l.fields != map[]
  }

  /** The record's license: the `spdx_id` of a truthy license entry, `None`
      otherwise; a truthy entry without `spdx_id` aborts the run. */
  function LicenseOf(repo: RepoMeta): (r: Result<Option<string>, Error>)
    ensures r.Err? <==> Truthy(repo.license) && "spdx_id" !in repo.license.fields
    ensures r.Ok? ==> (r.value.Some? <==> Truthy(repo.license))
    ensures r.Ok? && r.value.Some? ==> r.value.value == repo.license.fields["spdx_id"]
  {
    if !Truthy(repo.license) then Ok(None)
    else if "spdx_id" in repo.license.fields then Ok(Some(repo.license.fields["spdx_id"]))
    else Err(MissingSpdxId(repo.name))
  }

  predicate IsUpper(c: char)
  {
    'A' <= c <= 'Z'
  }

  /** No ASCII capital letter anywhere in `s`. */
  predicate IsLower(s: string)
  {
    forall i :: 0 <= i < |s| ==> !IsUpper(s[i])
  }

  /** `str.lower` on ASCII letters. */
  function Lower(s: string): (r: string)
    ensures |r| == |s|
    ensures IsLower(r)
    ensures forall i :: 0 <= i < |s| && !IsUpper(s[i]) ==> r[i] == s[i]
    ensures forall i :: 0 <= i < |s| && IsUpper(s[i]) ==> r[i] as int == s[i] as int + 32
  {
    if |s| == 0 then ""
    else
      var c := if IsUpper(s[0]) then (s[0] as int + 32) as char else s[0];
      [c] + Lower(s[1..])
  }

  /** Lowering is idempotent. */
  lemma LowerIdempotent(s: string)
    ensures Lower(Lower(s)) == Lower(s)
  {
    var once := Lower(s);
    assert forall i :: 0 <= i < |once| ==> Lower(once)[i] == once[i];
  }

  /** One record: the chunk with the repository's provenance. */
  function Record(repo: RepoMeta, license: Option<string>, key: string, chunk: Chunk): (r: SnippetRecord)
    ensures IsLower(r.language) && |r.language| == |key|
    ensures r.snippet == chunk.text && r.repoFileName == chunk.fileName && r.startingLineNumber == chunk.startLine
  {
    SnippetRecord(repo.githubRepoUrl, repo.commitHash, chunk.text, license, Lower(key), chunk.fileName, chunk.startLine)
  }

  /** The records of one repository, one per chunk in chunk order; a
      repository without chunks yields none. */
  function RepoRecords(repo: RepoMeta, license: Option<string>, key: string, chunks: seq<Chunk>): (r: seq<SnippetRecord>)
    ensures |r| == |chunks|
    ensures forall i :: 0 <= i < |r| ==>
      && r[i].githubRepoUrl == repo.githubRepoUrl
      && r[i].commitHash == repo.commitHash
      && r[i].snippet == chunks[i].text
      && r[i].license == license
      && r[i].language == Lower(key)
      && r[i].repoFileName == chunks[i].fileName
      && r[i].startingLineNumber == chunks[i].startLine
  {
    if |chunks| == 0 then []
    else [Record(repo, license, key, chunks[0])] + RepoRecords(repo, license, key, chunks[1..])
  }

  /** One repository: its license, then its chunks (discovery below
      `base/key/name`, names relative to `base`), then its records. Every
      record carries the repository's provenance and a file name of the form
      `key/name/...` ending in a file with a configured extension. */
  function ProcessRepo(base: seq<string>, root: seq<Entry>, lang: Language, repo: RepoMeta,
                       read: seq<string> -> Option<seq<string>>, size: nat, step: nat)
    : (r: Result<seq<SnippetRecord>, Error>)
    requires size >= 1 && step >= 1
    ensures r.Err? <==> LicenseOf(repo).Err? || Lookup(root, [lang.key, repo.name]).None?
    ensures r.Ok? ==> forall rec :: rec in r.value ==>
      && rec.githubRepoUrl == repo.githubRepoUrl
      && rec.commitHash == repo.commitHash
      && rec.license == LicenseOf(repo).value
      && rec.language == Lower(lang.key)
      && 2 < |rec.repoFileName|
      && rec.repoFileName[..2] == [lang.key, repo.name]
      && Matches(rec.repoFileName[|rec.repoFileName| - 1], lang.exts)
  {
    match LicenseOf(repo)
    case Err(e) => Err(e)
    case Ok(license) =>
      var repoPath := base + [lang.key, repo.name];
      match Lookup(root, [lang.key, repo.name])
      case None => Err(NoSuchDirectory(repoPath))
      case Some(entries) =>
        assert repoPath[..|base|] == base;
        var chunks := Chunking(repoPath, entries, lang.exts, size, step, base, read);
        NamesUnderRepo(chunks, base, repoPath, lang.key, repo.name);
        Ok(RepoRecords(repo, license, lang.key, chunks))
  }

  /** A chunk whose full path lies below `base/key/name` is named `key/name/...`. */
  lemma NamesUnderRepo(chunks: seq<Chunk>, base: seq<string>, repoPath: seq<string>, key: string, name: string)
    requires repoPath == base + [key, name]
    requires forall ch :: ch in chunks ==> Below(base + ch.fileName, repoPath)
    ensures forall ch :: ch in chunks ==> 2 < |ch.fileName| && ch.fileName[..2] == [key, name]
  {
    forall ch | ch in chunks
      ensures 2 < |ch.fileName| && ch.fileName[..2] == [key, name]
    {
      var full := base + ch.fileName;
      assert full[..|repoPath|] == repoPath;
      assert ch.fileName[..2] == full[|base|..|base| + 2];
    }
  }

  /** The records of a chunk list are exactly the records built from its chunks. */
  lemma RecordsOfChunks(repo: RepoMeta, license: Option<string>, key: string, chunks: seq<Chunk>)
    ensures forall rec :: rec in RepoRecords(repo, license, key, chunks) <==>
      exists ch :: ch in chunks && rec == Record(repo, license, key, ch)
  {
    var records := RepoRecords(repo, license, key, chunks);
    forall rec
      ensures rec in records <==> exists ch :: ch in chunks && rec == Record(repo, license, key, ch)
    {
      if rec in records {
        var i :| 0 <= i < |records| && records[i] == rec;
        assert chunks[i] in chunks;
      }
      if exists ch :: ch in chunks && rec == Record(repo, license, key, ch) {
        var ch :| ch in chunks && rec == Record(repo, license, key, ch);
        var i :| 0 <= i < |chunks| && chunks[i] == ch;
        assert records[i] == rec;
      }
    }
  }

  /** A repository whose license and directory are fine yields one record
      per chunk of `chunking`, in chunk order. */
  lemma ProcessRepoInOrder(base: seq<string>, root: seq<Entry>, lang: Language, repo: RepoMeta,
                           read: seq<string> -> Option<seq<string>>, size: nat, step: nat)
    requires size >= 1 && step >= 1
    requires LicenseOf(repo).Ok? && Lookup(root, [lang.key, repo.name]).Some?
    ensures Under(base + [lang.key, repo.name], base)
    ensures var r := ProcessRepo(base, root, lang, repo, read, size, step);
      var chunks := Chunking(base + [lang.key, repo.name], Lookup(root, [lang.key, repo.name]).value,
                             lang.exts, size, step, base, read);
      && r.Ok?
      && |r.value| == |chunks|
      && (forall i :: 0 <= i < |chunks| ==> r.value[i] == Record(repo, LicenseOf(repo).value, lang.key, chunks[i]))
  {
    var repoPath := base + [lang.key, repo.name];
    assert repoPath[..|base|] == base;
  }

  /** The records of a repository whose license and directory are fine are
      exactly those built from the chunks of its discovered files that were
      read successfully. */
  lemma ProcessRepoExactly(base: seq<string>, root: seq<Entry>, lang: Language, repo: RepoMeta,
                           read: seq<string> -> Option<seq<string>>, size: nat, step: nat)
    requires size >= 1 && step >= 1
    requires LicenseOf(repo).Ok? && Lookup(root, [lang.key, repo.name]).Some?
    ensures AllUnder(Discover(base + [lang.key, repo.name], Lookup(root, [lang.key, repo.name]).value, lang.exts), base)
    ensures ProcessRepo(base, root, lang, repo, read, size, step).Ok?
    ensures forall rec :: rec in ProcessRepo(base, root, lang, repo, read, size, step).value <==>
      exists ch :: rec == Record(repo, LicenseOf(repo).value, lang.key, ch)
        && exists f :: f in Discover(base + [lang.key, repo.name], Lookup(root, [lang.key, repo.name]).value, lang.exts)
             && ChunkOf(f, ch, base, read, size, step)
  {
    var repoPath := base + [lang.key, repo.name];
    var entries := Lookup(root, [lang.key, repo.name]).value;
    var license := LicenseOf(repo).value;
    var files := Discover(repoPath, entries, lang.exts);
    assert repoPath[..|base|] == base;
    var chunks := Chunking(repoPath, entries, lang.exts, size, step, base, read);
    var records := ProcessRepo(base, root, lang, repo, read, size, step).value;
    assert records == RepoRecords(repo, license, lang.key, chunks);
    RecordsOfChunks(repo, license, lang.key, chunks);
    ChunkingExactly(repoPath, entries, lang.exts, size, step, base, read);
    forall rec
      ensures rec in records <==>
        exists ch :: rec == Record(repo, license, lang.key, ch)
          && exists f :: f in files && ChunkOf(f, ch, base, read, size, step)
    {
      if rec in records {
        var ch :| ch in chunks && rec == Record(repo, license, lang.key, ch);
        assert exists f :: f in files && ChunkOf(f, ch, base, read, size, step);
      }
      if exists ch :: rec == Record(repo, license, lang.key, ch)
          && exists f :: f in files && ChunkOf(f, ch, base, read, size, step) {
        var ch :| rec == Record(repo, license, lang.key, ch)
          && exists f :: f in files && ChunkOf(f, ch, base, read, size, step);
        assert ch in chunks;
      }
    }
  }

  /** Sequencing two stages of the run: the second runs only when the first
      ended without error, and its records follow the first's. */
  function Then(first: Outcome, second: Outcome): (r: Outcome)
    ensures first.failure.Some? ==> r == first
    ensures first.failure.None? ==> r.written == first.written + second.written && r.failure == second.failure
  {
    if first.failure.Some? then first else Outcome(first.written + second.written, second.failure)
  }

  /** Sequencing is associative, so a run can be split anywhere. */
  lemma ThenAssociative(x: Outcome, y: Outcome, z: Outcome)
    ensures Then(x, Then(y, z)) == Then(Then(x, y), z)
  {
    if x.failure.None? && y.failure.None? {
      assert x.written + (y.written + z.written) == (x.written + y.written) + z.written;
    }
  }

  /** One repository as a stage of the run: its records, or the error that
      ends the run before any of them is written. */
  function RepoOutcome(r: Result<seq<SnippetRecord>, Error>): Outcome
  {
    match r
    case Ok(records) => Outcome(records, None)
    case Err(e) => Outcome([], Some(e))
  }

  /** The repositories of one language, in metadata order; the first error
      ends the run, keeping what was written before it. */
  function BuildLanguage(base: seq<string>, root: seq<Entry>, lang: Language, repos: seq<RepoMeta>,
                         read: seq<string> -> Option<seq<string>>, size: nat, step: nat): Outcome
    requires size >= 1 && step >= 1
  {
    if |repos| == 0 then Outcome([], None)
    else Then(RepoOutcome(ProcessRepo(base, root, lang, repos[0], read, size, step)),
              BuildLanguage(base, root, lang, repos[1..], read, size, step))
  }

  /** All languages in configuration order; a failure in one language ends
      the run before the next. */
  function BuildCorpus(base: seq<string>, root: seq<Entry>, langs: seq<Language>,
                       read: seq<string> -> Option<seq<string>>, size: nat, step: nat): Outcome
    requires size >= 1 && step >= 1
  {
    if |langs| == 0 then Outcome([], None)
    else Then(BuildLanguage(base, root, langs[0], langs[0].repos, read, size, step),
              BuildCorpus(base, root, langs[1..], read, size, step))
  }

  /** A language's run completes exactly when every one of its repositories
      is processed without error. */
  lemma {:induction false} LanguageCompletes(base: seq<string>, root: seq<Entry>, lang: Language, repos: seq<RepoMeta>,
                                             read: seq<string> -> Option<seq<string>>, size: nat, step: nat)
    requires size >= 1 && step >= 1
    ensures BuildLanguage(base, root, lang, repos, read, size, step).failure.None?
        <==> forall repo :: repo in repos ==> ProcessRepo(base, root, lang, repo, read, size, step).Ok?
    decreases |repos|
  {
    if |repos| > 0 {
      LanguageCompletes(base, root, lang, repos[1..], read, size, step);
      assert forall repo :: repo in repos <==> repo == repos[0] || repo in repos[1..];
    }
  }

  /** A run completes exactly when every configured language completes. */
  lemma {:induction false} CorpusCompletes(base: seq<string>, root: seq<Entry>, langs: seq<Language>,
                                           read: seq<string> -> Option<seq<string>>, size: nat, step: nat)
    requires size >= 1 && step >= 1
    ensures BuildCorpus(base, root, langs, read, size, step).failure.None?
        <==> forall l :: l in langs ==> BuildLanguage(base, root, l, l.repos, read, size, step).failure.None?
    decreases |langs|
  {
    if |langs| > 0 {
      CorpusCompletes(base, root, langs[1..], read, size, step);
      assert forall l :: l in langs <==> l == langs[0] || l in langs[1..];
    }
  }

  /** `rows_step` falls back to the chunk size when unset or 0. */
  function EffectiveStep(rowsStep: Option<int>, size: nat): (r: int)
    ensures size >= 1 ==> r != 0
    ensures rowsStep.Some? && rowsStep.value != 0 ==> r == rowsStep.value
    ensures r > 0 <==> if rowsStep.Some? && rowsStep.value != 0 then rowsStep.value > 0 else size > 0
  {
    if rowsStep.None? || rowsStep.value == 0 then size else rowsStep.value
  }

  /** With `rows_step` unset or 0 the windows do not overlap, and the chunks
      of a file concatenate back to the whole file. */
  lemma DefaultStepReassembles(rowsStep: Option<int>, name: seq<string>, lines: seq<string>, size: nat)
    requires size >= 1
    requires rowsStep.None? || rowsStep.value == 0
    ensures EffectiveStep(rowsStep, size) == size
    ensures Texts(ChunkFile(name, lines, size, EffectiveStep(rowsStep, size))) == Join(lines)
  {
    NonOverlappingReassembles(name, lines, size);
  }

  /** A repository with no matching file yields no records and no error. */
  lemma EmptyRepoNoRecords(base: seq<string>, root: seq<Entry>, lang: Language, repo: RepoMeta,
                           read: seq<string> -> Option<seq<string>>, size: nat, step: nat)
    requires size >= 1 && step >= 1
    requires LicenseOf(repo).Ok?
    requires Lookup(root, [lang.key, repo.name]).Some?
    requires Discover(base + [lang.key, repo.name], Lookup(root, [lang.key, repo.name]).value, lang.exts) == []
    ensures ProcessRepo(base, root, lang, repo, read, size, step) == Ok([])
  {
    var repoPath := base + [lang.key, repo.name];
    assert repoPath[..|base|] == base;
  }

  /** A language's run that completes writes exactly the records of its
      repositories: a record is written if and only if it is one of the
      records of a repository of the language. */
  lemma {:induction false} LanguageWritten(base: seq<string>, root: seq<Entry>, lang: Language, repos: seq<RepoMeta>,
                                           read: seq<string> -> Option<seq<string>>, size: nat, step: nat)
    requires size >= 1 && step >= 1
    ensures BuildLanguage(base, root, lang, repos, read, size, step).failure.None? ==>
      forall rec :: rec in BuildLanguage(base, root, lang, repos, read, size, step).written <==>
      exists repo :: repo in repos && ProcessRepo(base, root, lang, repo, read, size, step).Ok?
                     && rec in ProcessRepo(base, root, lang, repo, read, size, step).value
    decreases |repos|
  {
    if |repos| > 0 && BuildLanguage(base, root, lang, repos, read, size, step).failure.None? {
      var first := ProcessRepo(base, root, lang, repos[0], read, size, step);
      var rest := BuildLanguage(base, root, lang, repos[1..], read, size, step);
      assert first.Ok?;
      LanguageWritten(base, root, lang, repos[1..], read, size, step);
      forall rec
        ensures rec in BuildLanguage(base, root, lang, repos, read, size, step).written <==>
          exists repo :: repo in repos && ProcessRepo(base, root, lang, repo, read, size, step).Ok?
                         && rec in ProcessRepo(base, root, lang, repo, read, size, step).value
      {
        assert BuildLanguage(base, root, lang, repos, read, size, step).written == first.value + rest.written;
        if exists repo :: repo in repos && ProcessRepo(base, root, lang, repo, read, size, step).Ok?
                          && rec in ProcessRepo(base, root, lang, repo, read, size, step).value {
          var repo :| repo in repos && ProcessRepo(base, root, lang, repo, read, size, step).Ok?
                      && rec in ProcessRepo(base, root, lang, repo, read, size, step).value;
          if repo != repos[0] {
            assert repo in repos[1..];
          }
        }
      }
    }
  }

  /** Every record written for one language has that language's lowered key
      and a file name starting with its raw key. */
  lemma {:induction false} LanguageRecords(base: seq<string>, root: seq<Entry>, lang: Language, repos: seq<RepoMeta>,
                                           read: seq<string> -> Option<seq<string>>, size: nat, step: nat)
    requires size >= 1 && step >= 1
    ensures forall rec :: rec in BuildLanguage(base, root, lang, repos, read, size, step).written ==>
      rec.language == Lower(lang.key) && 0 < |rec.repoFileName| && rec.repoFileName[0] == lang.key
    decreases |repos|
  {
    if |repos| > 0 {
      LanguageRecords(base, root, lang, repos[1..], read, size, step);
      RepoRecordsKeyed(base, root, lang, repos[0], read, size, step);
    }
  }

  /** Every record of one repository has the lowered key as language and a
      file name starting with the raw key. */
  lemma RepoRecordsKeyed(base: seq<string>, root: seq<Entry>, lang: Language, repo: RepoMeta,
                         read: seq<string> -> Option<seq<string>>, size: nat, step: nat)
    requires size >= 1 && step >= 1
    ensures forall rec :: rec in RepoOutcome(ProcessRepo(base, root, lang, repo, read, size, step)).written ==>
      rec.language == Lower(lang.key) && 0 < |rec.repoFileName| && rec.repoFileName[0] == lang.key
  {
    var first := ProcessRepo(base, root, lang, repo, read, size, step);
    if first.Ok? {
      forall rec | rec in first.value
        ensures 0 < |rec.repoFileName| && rec.repoFileName[0] == lang.key
      {
        assert rec.repoFileName[0] == rec.repoFileName[..2][0];
      }
    }
  }

  /** Every record of a run carries a lower-case language, the lowered key of
      a configured language whose raw key starts the record's file name. */
  lemma {:induction false} CorpusRecords(base: seq<string>, root: seq<Entry>, langs: seq<Language>,
                                         read: seq<string> -> Option<seq<string>>, size: nat, step: nat)
    requires size >= 1 && step >= 1
    ensures forall rec :: rec in BuildCorpus(base, root, langs, read, size, step).written ==>
      && IsLower(rec.language)
      && exists k :: 0 <= k < |langs| && rec.language == Lower(langs[k].key)
                     && 0 < |rec.repoFileName| && rec.repoFileName[0] == langs[k].key
    decreases |langs|
  {
    if |langs| > 0 {
      LanguageRecords(base, root, langs[0], langs[0].repos, read, size, step);
      CorpusRecords(base, root, langs[1..], read, size, step);
      var out := BuildCorpus(base, root, langs, read, size, step);
      var first := BuildLanguage(base, root, langs[0], langs[0].repos, read, size, step);
      forall rec | rec in out.written
        ensures exists k :: 0 <= k < |langs| && rec.language == Lower(langs[k].key)
                            && 0 < |rec.repoFileName| && rec.repoFileName[0] == langs[k].key
      {
        if rec in first.written {
          assert 0 < |langs| && rec.language == Lower(langs[0].key) && rec.repoFileName[0] == langs[0].key;
        } else {
          var k :| 0 <= k < |langs[1..]| && rec.language == Lower(langs[1..][k].key)
                   && 0 < |rec.repoFileName| && rec.repoFileName[0] == langs[1..][k].key;
          assert langs[1..][k] == langs[k + 1];
        }
      }
    }
  }

  /** A run that completes writes exactly the records of its languages: every
      configured language's run then completes, and a record is written if
      and only if one of them writes it. */
  lemma {:induction false} CorpusWritten(base: seq<string>, root: seq<Entry>, langs: seq<Language>,
                                         read: seq<string> -> Option<seq<string>>, size: nat, step: nat)
    requires size >= 1 && step >= 1
    ensures BuildCorpus(base, root, langs, read, size, step).failure.None? ==>
      forall l :: l in langs ==> BuildLanguage(base, root, l, l.repos, read, size, step).failure.None?
    ensures BuildCorpus(base, root, langs, read, size, step).failure.None? ==>
      forall rec :: rec in BuildCorpus(base, root, langs, read, size, step).written <==>
      exists l :: l in langs && rec in BuildLanguage(base, root, l, l.repos, read, size, step).written
    decreases |langs|
  {
    CorpusCompletes(base, root, langs, read, size, step);
    if |langs| > 0 && BuildCorpus(base, root, langs, read, size, step).failure.None? {
      var first := BuildLanguage(base, root, langs[0], langs[0].repos, read, size, step);
      var rest := BuildCorpus(base, root, langs[1..], read, size, step);
      assert first.failure.None?;
      assert BuildCorpus(base, root, langs, read, size, step).written == first.written + rest.written;
      CorpusWritten(base, root, langs[1..], read, size, step);
      assert forall l :: l in langs <==> l == langs[0] || l in langs[1..];
    }
  }

  /** Languages are processed in configuration order: the run over `a + b`
      is the run over `a` followed, only if that one completed, by the run
      over `b`. */
  lemma {:induction false} CorpusAppend(base: seq<string>, root: seq<Entry>, a: seq<Language>, b: seq<Language>,
                                        read: seq<string> -> Option<seq<string>>, size: nat, step: nat)
    requires size >= 1 && step >= 1
    ensures BuildCorpus(base, root, a + b, read, size, step)
         == Then(BuildCorpus(base, root, a, read, size, step), BuildCorpus(base, root, b, read, size, step))
    decreases |a|
  {
    var rb := BuildCorpus(base, root, b, read, size, step);
    if |a| == 0 {
      assert a + b == b;
      assert [] + rb.written == rb.written;
    } else {
      var first := BuildLanguage(base, root, a[0], a[0].repos, read, size, step);
      assert (a + b)[0] == a[0] && (a + b)[1..] == a[1..] + b;
      CorpusAppend(base, root, a[1..], b, read, size, step);
      ThenAssociative(first, BuildCorpus(base, root, a[1..], read, size, step), rb);
    }
  }

  /** A worked run: the repository `flask` of language `Python` holding the
      one-line file `app/main.py` yields one record, its language lowered to
      `python` and its file name `Python/flask/app/main.py` relative to the
      repositories root. */
  lemma FlaskExample(base: seq<string>, read: seq<string> -> Option<seq<string>>)
    requires read(base + ["Python", "flask", "app", "main.py"]) == Some(["print(1)\n"])
    ensures var repo := RepoMeta("flask", "https://github.com/pallets/flask", "abc123", Null);
      var root := [Dir("Python", [Dir("flask", [Dir("app", [File("main.py")])])])];
      ProcessRepo(base, root, Language("Python", ["py"], [repo]), repo, read, 10, 10)
        == Ok([SnippetRecord("https://github.com/pallets/flask", "abc123", "print(1)\n", None, "python",
                             ["Python", "flask", "app", "main.py"], 0)])
  {
    var entries := [Dir("app", [File("main.py")])];
    var rel := ["Python", "flask", "app", "main.py"];
    var repoPath := base + ["Python", "flask"];
    var repo := RepoMeta("flask", "https://github.com/pallets/flask", "abc123", Null);
    var root := [Dir("Python", [Dir("flask", entries)])];
    var chunk := Chunk(rel, 0, "print(1)\n");
    FlaskLookup(entries);
    FlaskChunks(base, read);
    LowerPython();
    assert LicenseOf(repo) == Ok(None);
    var records := RepoRecords(repo, None, "Python", [chunk]);
    assert records == [SnippetRecord("https://github.com/pallets/flask", "abc123", "print(1)\n", None, "python", rel, 0)];
    assert ProcessRepo(base, root, Language("Python", ["py"], [repo]), repo, read, 10, 10) == Ok(records);
  }

  lemma FlaskLookup(entries: seq<Entry>)
    ensures Lookup([Dir("Python", [Dir("flask", entries)])], ["Python", "flask"]) == Some(entries)
  {
    assert ["Python", "flask"][1..] == ["flask"];
    assert ["flask"][1..] == [];
  }

  lemma FlaskDiscovery(repoPath: seq<string>)
    ensures Discover(repoPath, [Dir("app", [File("main.py")])], ["py"]) == [repoPath + ["app", "main.py"]]
  {
    var app := repoPath + ["app"];
    var dir := Dir("app", [File("main.py")]);
    FlaskAppVisit(repoPath);
    assert [dir][1..] == [];
    assert Discover(repoPath, [dir], ["py"]) == Visit(repoPath, dir, ["py"]) + Discover(repoPath, [], ["py"]);
    assert app + ["main.py"] == repoPath + ["app", "main.py"];
  }

  lemma FlaskAppVisit(repoPath: seq<string>)
    ensures Visit(repoPath, Dir("app", [File("main.py")]), ["py"]) == [repoPath + ["app"] + ["main.py"]]
  {
    FlaskFile(repoPath + ["app"]);
    assert !Hidden("app");
  }

  lemma FlaskFile(app: seq<string>)
    ensures Discover(app, [File("main.py")], ["py"]) == [app + ["main.py"]]
  {
    var file := File("main.py");
    assert Matches("main.py", ["py"]) by {
      SuffixAfterLastDot("main", "py");
      assert "main" + "." + "py" == "main.py";
    }
    assert Visit(app, file, ["py"]) == [app + ["main.py"]];
    assert [file][1..] == [];
    assert Discover(app, [file], ["py"]) == Visit(app, file, ["py"]) + Discover(app, [], ["py"]);
  }

  lemma FlaskChunks(base: seq<string>, read: seq<string> -> Option<seq<string>>)
    requires read(base + ["Python", "flask", "app", "main.py"]) == Some(["print(1)\n"])
    ensures Under(base + ["Python", "flask"], base)
    ensures Chunking(base + ["Python", "flask"], [Dir("app", [File("main.py")])], ["py"], 10, 10, base, read)
         == [Chunk(["Python", "flask", "app", "main.py"], 0, "print(1)\n")]
  {
    var repoPath := base + ["Python", "flask"];
    FlaskPaths(base);
    FlaskDiscovery(repoPath);
    FlaskRun(base, read);
    ChunkingOfRun(repoPath, [Dir("app", [File("main.py")])], ["py"], 10, 10, base, read);
  }

  lemma FlaskPaths(base: seq<string>)
    ensures Under(base + ["Python", "flask"], base)
    ensures (base + ["Python", "flask"]) + ["app", "main.py"] == base + ["Python", "flask", "app", "main.py"]
  {
    assert (base + ["Python", "flask"])[..|base|] == base;
  }

  lemma FlaskRun(base: seq<string>, read: seq<string> -> Option<seq<string>>)
    requires read(base + ["Python", "flask", "app", "main.py"]) == Some(["print(1)\n"])
    ensures AllUnder([base + ["Python", "flask", "app", "main.py"]], base)
    ensures ChunkAll([base + ["Python", "flask", "app", "main.py"]], base, read, 10, 10)
         == [Chunk(["Python", "flask", "app", "main.py"], 0, "print(1)\n")]
  {
    FlaskFileChunks(base, read);
    SingleFileRun(base + ["Python", "flask", "app", "main.py"], base, read, 10, 10);
  }

  lemma FlaskFileChunks(base: seq<string>, read: seq<string> -> Option<seq<string>>)
    requires read(base + ["Python", "flask", "app", "main.py"]) == Some(["print(1)\n"])
    ensures Under(base + ["Python", "flask", "app", "main.py"], base)
    ensures FileChunks(base + ["Python", "flask", "app", "main.py"], base, read, 10, 10)
         == [Chunk(["Python", "flask", "app", "main.py"], 0, "print(1)\n")]
  {
    var rel := ["Python", "flask", "app", "main.py"];
    var path := base + rel;
    assert path[..|base|] == base && path[|base|..] == rel;
    var lines := ["print(1)\n"];
    ShortFileSingleChunk(rel, lines, 10, 10);
    assert Join(lines) == "print(1)\n";
  }

  lemma LowerPython()
    ensures Lower("Python") == "python"
  {
    var r := Lower("Python");
    assert r[0] as int == 'P' as int + 32;
    assert forall i :: 1 <= i < 6 ==> r[i] == "Python"[i];
  }
}
