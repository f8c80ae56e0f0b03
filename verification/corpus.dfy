/** `chunking`: every file discovered under one repository directory, read
    and cut into chunks, in discovery order. Reading a file is outside the
    model: `read` gives a path's lines, or `None` when opening or decoding it
    raised, in which case the file is skipped and the loop moves on. */
module Corpus {
  import opened Wrappers
  import opened Discovery
  import opened Chunker

  /** `path` is `prefix` or lies below it. */
  predicate Under(path: seq<string>, prefix: seq<string>)
  {
    |prefix| <= |path| && path[..|prefix|] == prefix
  }

  predicate AllUnder(files: seq<seq<string>>, common: seq<string>)
  {
    forall f :: f in files ==> Under(f, common)
  }

  /** `os.path.relpath(path, common)` for a path under `common`: the segments
      after the common prefix. */
  function RelPath(path: seq<string>, common: seq<string>): (r: seq<string>)
    requires Under(path, common)
    ensures common + r == path
  {
    path[|common|..]
  }

  /** The chunks one file contributes: all of them when it was read, none
      when reading raised. */
  function FileChunks(path: seq<string>, common: seq<string>, read: seq<string> -> Option<seq<string>>,
                      size: nat, step: nat): (r: seq<Chunk>)
    requires size >= 1 && step >= 1
    requires Under(path, common)
    ensures r == [] <==> read(path).None?
    ensures forall ch :: ch in r ==> common + ch.fileName == path
  {
    match read(path)
    case None => []
    case Some(lines) => ChunkFile(RelPath(path, common), lines, size, step)
  }

  /** The chunks of a run of files, file after file. */
  function ChunkAll(files: seq<seq<string>>, common: seq<string>, read: seq<string> -> Option<seq<string>>,
                    size: nat, step: nat): seq<Chunk>
    requires size >= 1 && step >= 1
    requires AllUnder(files, common)
  {
    if |files| == 0 then []
    else FileChunks(files[0], common, read, size, step) + ChunkAll(files[1..], common, read, size, step)
  }

  /** Corpus order: the chunks of a run of files are those of its first part
      followed by those of its second part. */
  lemma {:induction false} ChunkAllAppend(a: seq<seq<string>>, b: seq<seq<string>>, common: seq<string>,
                                          read: seq<string> -> Option<seq<string>>, size: nat, step: nat)
    requires size >= 1 && step >= 1
    requires AllUnder(a, common) && AllUnder(b, common)
    ensures AllUnder(a + b, common)
    ensures ChunkAll(a + b, common, read, size, step)
         == ChunkAll(a, common, read, size, step) + ChunkAll(b, common, read, size, step)
    decreases |a|
  {
    if |a| > 0 {
      assert (a + b)[1..] == a[1..] + b;
      ChunkAllAppend(a[1..], b, common, read, size, step);
    } else {
      assert a + b == b;
    }
  }

  /** Each file contributes its chunks at its own place in discovery order,
      and it contributes either all of them or, when reading failed, none. */
  lemma FileContribution(files: seq<seq<string>>, common: seq<string>, read: seq<string> -> Option<seq<string>>,
                         size: nat, step: nat, i: nat)
    requires size >= 1 && step >= 1
    requires AllUnder(files, common)
    requires i < |files|
    ensures ChunkAll(files, common, read, size, step)
         == ChunkAll(files[..i], common, read, size, step)
          + FileChunks(files[i], common, read, size, step)
          + ChunkAll(files[i + 1..], common, read, size, step)
    ensures read(files[i]).None? <==> FileChunks(files[i], common, read, size, step) == []
    ensures read(files[i]).Some? ==>
      FileChunks(files[i], common, read, size, step)
        == ChunkFile(RelPath(files[i], common), read(files[i]).value, size, step)
  {
    assert files == files[..i] + ([files[i]] + files[i + 1..]);
    assert ([files[i]] + files[i + 1..])[1..] == files[i + 1..];
    ChunkAllAppend(files[..i], [files[i]] + files[i + 1..], common, read, size, step);
  }

  /** A file whose read fails contributes nothing: the corpus is exactly the
      corpus of the other files. */
  lemma ReadFailureSkipped(files: seq<seq<string>>, common: seq<string>, read: seq<string> -> Option<seq<string>>,
                           size: nat, step: nat, i: nat)
    requires size >= 1 && step >= 1
    requires AllUnder(files, common)
    requires i < |files| && read(files[i]).None?
    ensures AllUnder(files[..i] + files[i + 1..], common)
    ensures ChunkAll(files, common, read, size, step)
         == ChunkAll(files[..i] + files[i + 1..], common, read, size, step)
  {
    var pre, post := files[..i], files[i + 1..];
    assert AllUnder(pre, common) by {
      forall f | f in pre ensures Under(f, common) { assert f in files; }
    }
    assert AllUnder(post, common) by {
      forall f | f in post ensures Under(f, common) { assert f in files; }
    }
    var here := [files[i]] + post;
    assert AllUnder(here, common) by {
      forall f | f in here ensures Under(f, common) { assert f in files; }
    }
    assert files == pre + here;
    ChunkAllAppend(pre, here, common, read, size, step);
    assert here[1..] == post;
    assert ChunkAll(here, common, read, size, step) == ChunkAll(post, common, read, size, step);
    ChunkAllAppend(pre, post, common, read, size, step);
  }

  /** The chunks of a run of files depend only on how those files read: a
      failure elsewhere leaves them unchanged. */
  lemma {:induction false} ReadsDecide(files: seq<seq<string>>, common: seq<string>,
                                       read1: seq<string> -> Option<seq<string>>,
                                       read2: seq<string> -> Option<seq<string>>, size: nat, step: nat)
    requires size >= 1 && step >= 1
    requires AllUnder(files, common)
    requires forall f :: f in files ==> read1(f) == read2(f)
    ensures ChunkAll(files, common, read1, size, step) == ChunkAll(files, common, read2, size, step)
    decreases |files|
  {
    if |files| > 0 {
      assert files[0] in files;
      ReadsDecide(files[1..], common, read1, read2, size, step);
    }
  }

  /** Every chunk names, relative to `common`, a file of the run that was
      read successfully. */
  lemma {:induction false} ChunkAllProvenance(files: seq<seq<string>>, common: seq<string>,
                                              read: seq<string> -> Option<seq<string>>, size: nat, step: nat)
    requires size >= 1 && step >= 1
    requires AllUnder(files, common)
    ensures forall ch :: ch in ChunkAll(files, common, read, size, step) ==>
      exists f :: f in files && read(f).Some? && common + ch.fileName == f
    decreases |files|
  {
    if |files| > 0 {
      ChunkAllProvenance(files[1..], common, read, size, step);
      var mine := FileChunks(files[0], common, read, size, step);
      forall ch | ch in mine
        ensures read(files[0]).Some? && common + ch.fileName == files[0]
      {
        var k :| 0 <= k < |mine| && mine[k] == ch;
      }
      forall ch | ch in ChunkAll(files[1..], common, read, size, step)
        ensures exists f :: f in files && read(f).Some? && common + ch.fileName == f
      {
        var f :| f in files[1..] && read(f).Some? && common + ch.fileName == f;
        assert f in files;
      }
    }
  }

  /** `ch` is one of the chunks of file `f`, which was read successfully. */
  predicate ChunkOf(f: seq<string>, ch: Chunk, common: seq<string>, read: seq<string> -> Option<seq<string>>,
                    size: nat, step: nat)
    requires size >= 1 && step >= 1
    requires Under(f, common)
  {
    read(f).Some? && ch in ChunkFile(RelPath(f, common), read(f).value, size, step)
  }

  /** The chunks of a run of files are exactly the chunks of its files that
      were read successfully: no file's chunk is lost, and nothing else
      appears. */
  lemma {:induction false} ChunkAllExactly(files: seq<seq<string>>, common: seq<string>,
                                           read: seq<string> -> Option<seq<string>>, size: nat, step: nat)
    requires size >= 1 && step >= 1
    requires AllUnder(files, common)
    ensures forall ch :: ch in ChunkAll(files, common, read, size, step) <==>
      exists f :: f in files && ChunkOf(f, ch, common, read, size, step)
    decreases |files|
  {
    if |files| > 0 {
      var rest := files[1..];
      assert AllUnder(rest, common) by {
        forall f | f in rest ensures Under(f, common) { assert f in files; }
      }
      ChunkAllExactly(rest, common, read, size, step);
      forall ch
        ensures ch in ChunkAll(files, common, read, size, step) <==>
          exists f :: f in files && ChunkOf(f, ch, common, read, size, step)
      {
        if ch in FileChunks(files[0], common, read, size, step) {
          assert ChunkOf(files[0], ch, common, read, size, step);
        } else if ch in ChunkAll(rest, common, read, size, step) {
          var f :| f in rest && ChunkOf(f, ch, common, read, size, step);
          assert f in files;
        }
        if exists f :: f in files && ChunkOf(f, ch, common, read, size, step) {
          var f :| f in files && ChunkOf(f, ch, common, read, size, step);
          if f != files[0] {
            assert f in rest;
          }
        }
      }
    }
  }

  /** `chunking(repo_path, ...)`: discovery below the repository directory,
      then every discovered file chunked in discovery order. Every chunk names
      a discovered file below the repository, relative to `common`. */
  function Chunking(repoPath: seq<string>, entries: seq<Entry>, exts: seq<string>, size: nat, step: nat,
                    common: seq<string>, read: seq<string> -> Option<seq<string>>): (r: seq<Chunk>)
    requires size >= 1 && step >= 1
    requires Under(repoPath, common)
    ensures forall ch :: ch in r ==>
      && Below(common + ch.fileName, repoPath)
      && Matches(ch.fileName[|ch.fileName| - 1], exts)
      && read(common + ch.fileName).Some?
  {
    DiscoveredUnder(Discover(repoPath, entries, exts), repoPath, common);
    ChunkingProvenance(repoPath, entries, exts, size, step, common, read);
    ChunkAll(Discover(repoPath, entries, exts), common, read, size, step)
  }

  /** `chunking` yields exactly the chunks of the discovered files that were
      read successfully: every chunk of every such file is there, and no
      other chunk. */
  lemma ChunkingExactly(repoPath: seq<string>, entries: seq<Entry>, exts: seq<string>, size: nat, step: nat,
                        common: seq<string>, read: seq<string> -> Option<seq<string>>)
    requires size >= 1 && step >= 1
    requires Under(repoPath, common)
    ensures AllUnder(Discover(repoPath, entries, exts), common)
    ensures forall ch :: ch in Chunking(repoPath, entries, exts, size, step, common, read) <==>
      exists f :: f in Discover(repoPath, entries, exts) && ChunkOf(f, ch, common, read, size, step)
  {
    DiscoveredUnder(Discover(repoPath, entries, exts), repoPath, common);
    ChunkAllExactly(Discover(repoPath, entries, exts), common, read, size, step);
  }

  /** No chunk comes out of a run exactly when every one of its reads failed. */
  lemma NoChunksWhenNoReads(files: seq<seq<string>>, common: seq<string>,
                            read: seq<string> -> Option<seq<string>>, size: nat, step: nat)
    requires size >= 1 && step >= 1
    requires AllUnder(files, common)
    ensures ChunkAll(files, common, read, size, step) == [] <==> forall f :: f in files ==> read(f).None?
  {
    ChunkAllExactly(files, common, read, size, step);
    if ChunkAll(files, common, read, size, step) == [] {
      forall f | f in files
        ensures read(f).None?
      {
        if read(f).Some? {
          var chunks := ChunkFile(RelPath(f, common), read(f).value, size, step);
          assert ChunkOf(f, chunks[0], common, read, size, step);
        }
      }
    } else {
      var ch := ChunkAll(files, common, read, size, step)[0];
      assert ch in ChunkAll(files, common, read, size, step);
    }
  }

  lemma ChunkingProvenance(repoPath: seq<string>, entries: seq<Entry>, exts: seq<string>, size: nat, step: nat,
                           common: seq<string>, read: seq<string> -> Option<seq<string>>)
    requires size >= 1 && step >= 1
    requires Under(repoPath, common)
    ensures AllUnder(Discover(repoPath, entries, exts), common)
    ensures forall ch :: ch in ChunkAll(Discover(repoPath, entries, exts), common, read, size, step) ==>
      && Below(common + ch.fileName, repoPath)
      && Matches(ch.fileName[|ch.fileName| - 1], exts)
      && read(common + ch.fileName).Some?
      && common + ch.fileName in Discover(repoPath, entries, exts)
  {
    var files := Discover(repoPath, entries, exts);
    DiscoveredUnder(files, repoPath, common);
    ChunkAllProvenance(files, common, read, size, step);
    forall ch | ch in ChunkAll(files, common, read, size, step)
      ensures Below(common + ch.fileName, repoPath)
      ensures Matches(ch.fileName[|ch.fileName| - 1], exts)
      ensures read(common + ch.fileName).Some?
      ensures common + ch.fileName in files
    {
      var f :| f in files && read(f).Some? && common + ch.fileName == f;
      assert f[|f| - 1] == ch.fileName[|ch.fileName| - 1];
    }
  }

  /** Files below the repository directory are under any prefix of it. */
  lemma DiscoveredUnder(files: seq<seq<string>>, repoPath: seq<string>, common: seq<string>)
    requires Under(repoPath, common)
    requires forall p :: p in files ==> Below(p, repoPath)
    ensures AllUnder(files, common)
  {
    forall p | p in files
      ensures Under(p, common)
    {
      assert p[..|common|] == p[..|repoPath|][..|common|];
    }
  }

  /** A run of one file yields that file's chunks. */
  lemma SingleFileRun(path: seq<string>, common: seq<string>, read: seq<string> -> Option<seq<string>>,
                      size: nat, step: nat)
    requires size >= 1 && step >= 1
    requires Under(path, common)
    ensures AllUnder([path], common)
    ensures ChunkAll([path], common, read, size, step) == FileChunks(path, common, read, size, step)
  {
    assert [path][1..] == [];
    assert FileChunks(path, common, read, size, step) + [] == FileChunks(path, common, read, size, step);
  }

  /** `chunking` is the run over the discovered files. */
  lemma ChunkingOfRun(repoPath: seq<string>, entries: seq<Entry>, exts: seq<string>, size: nat, step: nat,
                      common: seq<string>, read: seq<string> -> Option<seq<string>>)
    requires size >= 1 && step >= 1
    requires Under(repoPath, common)
    ensures AllUnder(Discover(repoPath, entries, exts), common)
    ensures Chunking(repoPath, entries, exts, size, step, common, read)
         == ChunkAll(Discover(repoPath, entries, exts), common, read, size, step)
  {
    DiscoveredUnder(Discover(repoPath, entries, exts), repoPath, common);
  }

  /** One more file of the run: its chunks follow those of the files before it. */
  lemma ChunkAllStep(files: seq<seq<string>>, k: nat, common: seq<string>,
                     read: seq<string> -> Option<seq<string>>, size: nat, step: nat)
    requires size >= 1 && step >= 1
    requires AllUnder(files, common)
    requires k < |files|
    ensures AllUnder(files[..k], common) && AllUnder(files[..k + 1], common)
    ensures ChunkAll(files[..k + 1], common, read, size, step)
         == ChunkAll(files[..k], common, read, size, step) + FileChunks(files[k], common, read, size, step)
  {
    assert AllUnder(files[..k], common) by {
      forall f | f in files[..k] ensures Under(f, common) { assert f in files; }
    }
    assert files[..k + 1] == files[..k] + [files[k]];
    ChunkAllAppend(files[..k], [files[k]], common, read, size, step);
  }

  /** The loop of `chunking` over the discovered files: a file whose read
      raises is skipped, every other file's chunks are appended in order. */
  method ChunkFiles(files: seq<seq<string>>, common: seq<string>, read: seq<string> -> Option<seq<string>>,
                    size: nat, step: nat) returns (corpus: seq<Chunk>)
    requires size >= 1 && step >= 1
    requires AllUnder(files, common)
    ensures corpus == ChunkAll(files, common, read, size, step)
  {
    corpus := [];
    for k := 0 to |files|
      invariant AllUnder(files[..k], common)
      invariant corpus == ChunkAll(files[..k], common, read, size, step)
    {
      var source := files[k];
      ChunkAllStep(files, k, common, read, size, step);
      match read(source)
      case None =>
      case Some(lines) =>
        var chunks := ChunkLines(RelPath(source, common), lines, size, step);
        ChunkFileIsWindows(RelPath(source, common), lines, size, step);
        corpus := corpus + chunks;
    }
    assert files[..|files|] == files;
  }
}
