# Snippet extraction, modelled in Dafny

This project models the snippet-extraction core of the `mirror` corpus builder
(`mirror/github/generate_snippets.py`). The builder walks a directory of cloned
repositories, grouped by language. It finds the source files whose extension is
configured for the language. It cuts each file into fixed-size line windows plus
one remainder chunk. Each chunk becomes a snippet record that carries the
repository's URL, commit, license and language.

The model is pure Dafny. The file system is an input: the directory tree below
the repositories root is a value (`root`, or a directory's `entries`), and the
file reads are a function parameter `read`.

- `wrappers.dfy`: `Option` and `Result`.
- `lines.dfy`: a file as its sequence of lines, each line keeping its terminator.
  `Join` is `"".join(lines)`. `Tail` is Python's open slice `lines[start:]`, which is
  empty past the end.
- `discovery.dfy`: `searching_all_files` over a directory tree
  `File(name) | Dir(name, children)`. Paths are sequences of segments.
  - `Suffix` is `name.split('.')[-1]`.
  - `Discover` and `Visit` follow the listing loop, branch by branch.
  - `Located` is an independent reference definition of "a matching file reached
    through non-hidden directories".
  - `DiscoverExactly` proves that `Discover` returns exactly the `Located` paths.
  - `Find` and `Lookup` list a directory by a relative path. `Lookup` fails
    where `iterdir` would raise.
  - The file also holds the path-join finding (see Findings).
- `chunker.dfy`: the per-file `while` loop of `chunking`.
  - `Windows` is the loop written as a recursive function.
  - `ChunkFile` is the whole file's chunk list, with its shape in its contract.
  - `ChunkLines` is the imperative loop, proved equal to `Windows` from line 0,
    which is `ChunkFile`.
  - `Emit` is the loop with its output list made explicit; `ChunkLines` is
    proved equal to `Windows` from line 0 through it.
  - Lemmas cover the count, the remainder, short files, ordering, re-assembly,
    coverage, and a worked 25-line example (`TwentyFiveLines`).
- `corpus.dfy`: `chunking` over all discovered files.
  - `read(path)` returns the file's lines, or `None` when opening or decoding
    raised. Such a file is skipped.
  - `RelPath` is `os.path.relpath` for a path under the common root: it strips
    the prefix.
  - `ChunkFiles` is the imperative file loop.
- `records.dfy`: record shaping and the language / repository loops of
  `generate_datasets`.
  - Records are returned in write order instead of being inserted into a store.
  - An `Outcome` pairs the records written with the error that ended the run, if
    any. Nothing written before an abort is rolled back.

Preconditions: the chunk size and the step are both at least 1, the sizes the
builder is meant to be run with. The code itself only replaces an unset or zero
`rows_step` by the chunk size (lines 113-114), so other values reach the loop at
line 81:

- A zero chunk size with `rows_step` unset or 0 gives a zero step. The loop then
  runs forever on a non-empty file; an empty file gets just the empty remainder.
- A zero chunk size with a positive `rows_step` ends: it emits empty windows at
  0, `rows_step`, ... up to the last line, then the remainder.
- A negative `rows_step` loops forever only on a file longer than the chunk
  size. On a shorter file the guard fails at once and the file gets the single
  remainder chunk.
- A negative chunk size with `rows_step` unset makes the step negative too, and
  the loop runs forever. With a positive `rows_step` the loop ends, and its
  slices `lines[s:s+size]` follow Python's negative-index slicing.

The remainder chunk never repeats the last window. Its start line is always one
step past the last window's start (`WindowsStarts`, part of `Shaped`). With step = size, a
file of `size + k*size` lines gets its last full window as the remainder, not as
a loop window, because the loop guard is `start <= N - 1 - size`. The output
text is the same either way.

## Model

| member | source | states |
|---|---|---|
| Discovery.Suffix | mirror/github/generate_snippets.py:52 | the suffix is the longest dot-free tail of the name: the whole name when it has no dot, empty when the name ends in a dot |
| Discovery.SuffixOfDotless | mirror/github/generate_snippets.py:52 | a name without a dot is its own suffix |
| Discovery.SuffixAfterLastDot | mirror/github/generate_snippets.py:52 | the suffix of `stem.ext` is `ext`, whatever dots `stem` holds |
| Discovery.Discover | mirror/github/generate_snippets.py:43-60 | every returned path lies strictly below the listed directory and its file name has a configured suffix |
| Discovery.Visit | mirror/github/generate_snippets.py:51-58 | one listing entry contributes only paths below the directory whose file names have a configured suffix |
| Discovery.DiscoverExactly | mirror/github/generate_snippets.py:49-60 | a path is returned if and only if it names a matching file at any depth, reached only through directories whose names do not start with `.` |
| Discovery.VisitExactly | mirror/github/generate_snippets.py:51-58 | the same if-and-only-if for a single entry: a matching file, or a non-hidden directory searched recursively |
| Discovery.HiddenMatchingFileKept | mirror/github/generate_snippets.py:52-55 | a hidden file whose suffix matches is still returned, because the suffix test comes before the hidden test |
| Discovery.HiddenDirectorySkipped | mirror/github/generate_snippets.py:54-55 | nothing below a directory whose name starts with `.` is returned |
| Discovery.AbsoluteRecursionTargetIsChild | mirror/github/generate_snippets.py:58 | for an absolute directory, `dir/x` is the sub-directory's own path `x` |
| Discovery.RelativeRecursionTargetRepeatsDir | mirror/github/generate_snippets.py:58 | for a relative directory, `dir/x` repeats the directory's segments, so it is not the sub-directory that was listed |
| Lines.Join | mirror/github/generate_snippets.py:84 | `"".join(lines)`: the lines concatenated in order, each keeping its terminator (its algebra is `JoinAppend`) |
| Lines.Tail | mirror/github/generate_snippets.py:89 | `lines[start:]` has `N - start` lines when `start < N`, and none at or past the end |
| Lines.JoinAppend | mirror/github/generate_snippets.py:84 | joining the lines of two runs gives the concatenation of their joined texts |
| Chunker.Windows | mirror/github/generate_snippets.py:81-89 | the loop from counter `start`, as a recursive function: a window while `start <= N - 1 - size`, then the remainder (its per-chunk facts are `WindowAt`) |
| Chunker.WindowAt | mirror/github/generate_snippets.py:81-89 | chunk i from counter `start` names the file; the first begins at `start` and each later one `step` lines after its predecessor; every chunk but the last is a full `size`-line window that passed the guard, and the last fails the guard and holds `lines[start:]` |
| Chunker.WindowsStarts | mirror/github/generate_snippets.py:81-85 | from counter 0, the first chunk starts at line 0 and each later one starts `step` lines after its predecessor |
| Chunker.WindowsContents | mirror/github/generate_snippets.py:81-89 | from counter 0, every chunk names the file, and every chunk but the last is a full window ending inside the file |
| Chunker.WindowsRemainder | mirror/github/generate_snippets.py:87-89 | from counter 0, the last chunk starts where `s + size >= N` and holds `lines[s:]` |
| Chunker.WindowsShaped | mirror/github/generate_snippets.py:77-89 | the chunks emitted from line 0 have the shape `Shaped` below |
| Chunker.ChunkFile | mirror/github/generate_snippets.py:77-89 | the result is `Shaped`: at least one chunk; the first starts at line 0 and each later one `step` lines after its predecessor; every chunk names the file; every chunk but the last covers exactly `lines[s:s+size]`, which ends inside the file; the last starts where `s + size >= N` and holds `lines[s:]` |
| Chunker.StartLineIsMultiple | mirror/github/generate_snippets.py:81-85 | chunk i starts at line `i*step` |
| Chunker.EmitIsWindows | mirror/github/generate_snippets.py:81-89 | the loop, holding `done` at counter `start`, ends with `done` followed by the chunks the recursive definition emits from `start` |
| Chunker.ChunkLines | mirror/github/generate_snippets.py:77-89 | the `while` loop with its unconditional remainder append emits exactly the chunks of the recursive definition from line 0, which is `ChunkFile` |
| Chunker.RemainderBounds | mirror/github/generate_snippets.py:81-89 | the remainder has at most `size` lines, and it is empty exactly when its start is at or past the end |
| Chunker.ShortFileSingleChunk | mirror/github/generate_snippets.py:81-89 | a file of at most `size` lines yields the single chunk at line 0 holding the whole file |
| Chunker.ChunkCount | mirror/github/generate_snippets.py:81-85 | a file yields `ceil(max(0, N - size) / step)` windows plus one remainder |
| Chunker.StartLinesIncrease | mirror/github/generate_snippets.py:81-89 | start lines strictly increase in emission order, and the remainder comes last |
| Chunker.NonOverlappingFrom | mirror/github/generate_snippets.py:81-89 | with step = size, the texts emitted from counter `start` concatenate to `lines[start:]` |
| Chunker.NonOverlappingReassembles | mirror/github/generate_snippets.py:81-89 | with step = size, the chunk texts concatenated in order reproduce the whole file |
| Chunker.CoveredFrom | mirror/github/generate_snippets.py:81-89 | with step <= size, every line from `start` on lies in the span of some emitted chunk |
| Chunker.EveryLineCovered | mirror/github/generate_snippets.py:81-89 | with step <= size, every line of the file lies in the span of some chunk |
| Chunker.WideStepSkipsLine | mirror/github/generate_snippets.py:81-89 | with step > size, line `size` of a longer file lies in no chunk |
| Chunker.RemainderNonEmpty | mirror/github/generate_snippets.py:81-89 | with step <= size, a non-empty file's remainder is never empty |
| Chunker.TwentyFiveLines | mirror/github/generate_snippets.py:81-89 | 25 lines with size 10 and step 10 give windows at 0 and 10 and the remainder at 20, holding lines 20-24 |
| Corpus.RelPath | mirror/github/generate_snippets.py:82 | the relative name, appended to the common root, gives back the full path |
| Corpus.FileChunks | mirror/github/generate_snippets.py:75-95 | one file contributes no chunk exactly when its read raised, and every chunk it contributes names it relative to the common root |
| Corpus.ChunkAll | mirror/github/generate_snippets.py:73-95 | the file loop as a recursive function, file after file (its contents are `ChunkAllExactly`) |
| Corpus.ChunkAllAppend | mirror/github/generate_snippets.py:71-96 | chunks are appended file by file: the chunks of `a + b` are those of `a` followed by those of `b` |
| Corpus.FileContribution | mirror/github/generate_snippets.py:73-95 | each file's chunks sit between those of earlier and later files; a file contributes none exactly when its read failed, and otherwise all of its chunks |
| Corpus.ReadFailureSkipped | mirror/github/generate_snippets.py:75-95 | a file whose read raises adds nothing: the corpus equals the corpus of the other files |
| Corpus.ReadsDecide | mirror/github/generate_snippets.py:73-95 | the chunks of a run of files depend only on how those files read, so a failure elsewhere leaves them unchanged |
| Corpus.ChunkAllProvenance | mirror/github/generate_snippets.py:73-89 | every chunk names, relative to the common root, a file of the run that was read successfully |
| Corpus.ChunkAllExactly | mirror/github/generate_snippets.py:73-95 | a chunk is in the corpus of a run if and only if it is one of the chunks of a file of the run that was read successfully |
| Corpus.NoChunksWhenNoReads | mirror/github/generate_snippets.py:73-95 | a run yields no chunk exactly when every one of its reads failed |
| Corpus.ChunkAllStep | mirror/github/generate_snippets.py:73-95 | one more file's chunks follow those of the files before it |
| Corpus.ChunkingProvenance | mirror/github/generate_snippets.py:66-96 | every chunk of a repository names a discovered file below it with a configured suffix, whose read succeeded |
| Corpus.Chunking | mirror/github/generate_snippets.py:66-96 | every chunk names a discovered file below the repository with a configured suffix, whose read succeeded (the converse is `ChunkingExactly`) |
| Corpus.ChunkingExactly | mirror/github/generate_snippets.py:66-96 | a chunk comes out of `chunking` if and only if it is one of the chunks of a discovered file whose read succeeded |
| Corpus.ChunkFiles | mirror/github/generate_snippets.py:71-96 | the file loop skips files whose read raised and appends the chunks of the others, in order |
| Records.LicenseOf | mirror/github/generate_snippets.py:166-169 | the license is `spdx_id` exactly when the entry is truthy (not `null`, not `{}`); otherwise it is `None`; a truthy entry without `spdx_id` aborts the run |
| Records.Lower | mirror/github/generate_snippets.py:190 | the result has the same length and no capital letter; capitals map to their lower-case letter and every other character is unchanged |
| Records.LowerIdempotent | mirror/github/generate_snippets.py:190 | lowering twice is lowering once |
| Records.Record | mirror/github/generate_snippets.py:186-192 | a record has a lower-case language as long as the key, and the chunk's text, file name and start line |
| Records.RepoRecords | mirror/github/generate_snippets.py:179-192 | one record per chunk, in order, carrying the repository's URL and commit, the license, the lowered language, the chunk's file name, text and start line; no chunks means no records |
| Discovery.Lookup | mirror/github/generate_snippets.py:51 | the listing of `root/key/name`, absent when a segment is missing or names a file, where `iterdir` raises |
| Discovery.LookupAppend | mirror/github/generate_snippets.py:51 | listing composes along a path: the listing of `a + b` is that of `b` inside the listing of `a`, and fails whenever that of `a` fails |
| Discovery.LookupRepoDirectory | mirror/github/generate_snippets.py:51 | the repository directory `root/key/name` can be listed exactly when `key` is a directory of the root and `name` a directory inside it, and its listing is then the children of `name` |
| Records.ProcessRepo | mirror/github/generate_snippets.py:165-192 | the repository ends the run with an error if and only if its license entry is bad or its directory cannot be listed; otherwise every record carries the repository's provenance and a file name `key/name/...` ending in a file with a configured suffix |
| Records.RecordsOfChunks | mirror/github/generate_snippets.py:182-192 | a record is written for a chunk list if and only if it is the record of one of its chunks |
| Records.ProcessRepoInOrder | mirror/github/generate_snippets.py:172-192 | with a good license and directory, one record per chunk of `chunking`, in chunk order |
| Records.ProcessRepoExactly | mirror/github/generate_snippets.py:165-192 | with a good license and directory, a record is written if and only if it is built from a chunk of a discovered file of the repository whose read succeeded |
| Records.NamesUnderRepo | mirror/github/generate_snippets.py:172-176 | a file under `root/key/name`, made relative to `root`, starts with the segments `key/name` |
| Records.EmptyRepoNoRecords | mirror/github/generate_snippets.py:179-180 | a repository with no matching file yields no records and no error |
| Records.RepoRecordsKeyed | mirror/github/generate_snippets.py:172-192 | every record of one repository has the lowered key as language and a file name starting with the raw key |
| Records.LanguageWritten | mirror/github/generate_snippets.py:165-192 | a language's run that completes writes a record if and only if it is one of the records of a repository of the language |
| Records.LanguageRecords | mirror/github/generate_snippets.py:165-192 | every record written for a language has its lowered key as language, and a file name that starts with the raw key |
| Records.CorpusRecords | mirror/github/generate_snippets.py:155-192 | every record of a run has a lower-case language, the lowered key of a configured language whose raw key starts the record's file name |
| Records.BuildLanguage | mirror/github/generate_snippets.py:165-200 | the repositories of a language in metadata order, the first error ending the run (its completion is `LanguageCompletes`) |
| Records.LanguageCompletes | mirror/github/generate_snippets.py:165-200 | a language's run completes if and only if every one of its repositories is processed without error |
| Records.BuildCorpus | mirror/github/generate_snippets.py:155-200 | all languages in configuration order, a failure ending the run (its completion is `CorpusCompletes`) |
| Records.CorpusCompletes | mirror/github/generate_snippets.py:155-200 | a run completes if and only if every configured language completes |
| Records.CorpusWritten | mirror/github/generate_snippets.py:155-200 | a run that completes has every configured language's run complete, and writes a record if and only if one of those runs writes it |
| Records.CorpusAppend | mirror/github/generate_snippets.py:155-200 | languages run in configuration order: the run over `a + b` is the run over `a`, followed by the run over `b` only if `a` completed |
| Records.EffectiveStep | mirror/github/generate_snippets.py:113-114 | an explicit non-zero `rows_step` is kept; the step is positive exactly when that value, or else the chunk size, is; with a positive chunk size it is never 0 |
| Records.DefaultStepReassembles | mirror/github/generate_snippets.py:113-114 | an unset or zero `rows_step` becomes the chunk size, and the file's chunks then reproduce the whole file |
| Records.FlaskExample | mirror/github/generate_snippets.py:165-192 | `Python/flask/app/main.py` under the repositories root gives one record: language `python`, file name `Python/flask/app/main.py`, start line 0, no license |

## Findings

| source | as written | input that shows it | evidently intended | confidence | as-written member | corrected member |
|---|---|---|---|---|---|---|
| mirror/github/generate_snippets.py:58 | descends into `dir/x`, but `x` from `iterdir` already starts with `dir` | a relative repositories root `repos` and a repository with a sub-directory `src`: the listing asks for `repos/python/flask/repos/python/flask/src`. That path does not exist, so `iterdir` raises at line 51 in the recursive call made at line 58, and the error escapes through line 73, outside the `try`, so the whole run aborts | descend into `x` itself | high; not executed | Discovery.RelativeRecursionTargetRepeatsDir | Discovery.Visit |

`Discovery.RecursionTargetAsWritten` is the join as written, on `pathlib` semantics
(`JoinPath`). For an absolute directory it equals the child's path
(`AbsoluteRecursionTargetIsChild`). `Visit` descends into the child's own path
`dir + [name]`, and `DiscoverExactly` proves the intended property about it.
The rest of the model uses absolute paths, where the two readings agree.

## Left out

- `create_zip_file` (lines 32-39): zip archive I/O through a library.
- The SQLite store (lines 152-153, 186): its code is not part of this model. Records are returned in write order instead.
- Storage write failures (lines 198-200): they abort the run, but the store is not modelled, so they are not either.
- The click CLI, the `LANGUAGES_REPOS` variable and JSON loading of the language config and `meta.json` (lines 100-112, 115-141 and 157-162): glue code. Languages, extensions and repository metadata are given as typed values.
- Manifest writing (lines 204-210): it uses the wall clock and a module-level version.
- `readlines` line splitting and UTF-8 decoding: the file's lines, or the fact that the read failed, are an input.
- Traceback printing and the `KeyboardInterrupt` re-raise (lines 91-94, 195-196): logging side effects and asynchronous interrupts.
- `chunk_encode` (lines 62-63): base64 encoding that nothing in `generate_snippets.py` calls.
- Symbolic links and special files: the tree holds only regular files and directories.
- Missing `name`, `github_repo_url`, `commit_hash` or `license` keys in repository metadata: these fields are assumed present. A missing `license` key is a `KeyError` at line 168 that aborts the run. A `null` `spdx_id` value is not modelled either: license values are strings.
- Language keys and repository names are single path segments. `.` and `..` are not interpreted.
- `repo_file_name` is kept as its segment sequence. Rendering it with the OS separator by `str(Path(...))` is not modelled.
- Records.Lower: lowers ASCII letters only. Python's `str.lower` also lowers non-ASCII letters.
- Chunker.ChunkFile: requires a chunk size of at least 1 and a step of at least 1, the values the builder is designed for. A chunk size of 0 or below, or a negative `rows_step` (line 113 only replaces a falsy value), is not modelled; what the loop does then is described above.
- Unlistable sub-directories: `iterdir` on a directory that cannot be opened (line 51, reached through line 58) raises, for example `PermissionError`. The error escapes through line 73, outside the `try`, and aborts the whole run. The tree holds only listable directories, so `Discover` is total; only a missing repository directory is modelled as an error (`NoSuchDirectory`).
- Relative repositories roots: modelled only through the finding above. Discovery is modelled on absolute paths.
