/**
 * The files the converter writes, reads and deletes. The filesystem is a map
 * from path to contents; synthesised speech and encoded audio are bytes, and
 * decoded audio is a sequence of samples whose only operation is `+`
 * (pydub's `AudioSegment` append, with `AudioSegment.empty()` as `[]`).
 */
module Artifacts {
  import opened Wrappers
  import opened ChunkNaming

  type Bytes = seq<bv8>
  type Sample = int
  type Audio = seq<Sample>
  type FileSystem = map<string, Bytes>

  /** A filesystem after a phase, and the path at which that phase raised, if any. */
  datatype Step = Step(fs: FileSystem, raised: Option<string>)

  /** The filesystem after chunk `i` of `chunks` has been synthesised and saved to
      `ChunkPath(i)`, for every `i` in index order. */
  function WriteArtifacts(fs: FileSystem, chunks: seq<string>, lang: string,
                          synthesize: (string, string) -> Bytes): (written: FileSystem)
  {
    if chunks == [] then fs
    else
      var n := |chunks|;
      WriteArtifacts(fs, chunks[..n - 1], lang, synthesize)[ChunkPath(n - 1) := synthesize(chunks[n - 1], lang)]
  }

  /** After the writes, chunk `i`'s path holds the synthesiser's output for chunk `i`. */
  lemma {:induction false} WrittenArtifactAt(fs: FileSystem, chunks: seq<string>, lang: string,
                                             synthesize: (string, string) -> Bytes, i: nat)
    requires i < |chunks|
    ensures var written := WriteArtifacts(fs, chunks, lang, synthesize);
      ChunkPath(i) in written && written[ChunkPath(i)] == synthesize(chunks[i], lang)
  {
    var n := |chunks|;
    if i < n - 1 {
      WrittenArtifactAt(fs, chunks[..n - 1], lang, synthesize, i);
      ChunkPathInjective(i, n - 1);
    }
  }

  /** Saving chunk `i` after the first `i` chunks gives the writes of the first `i + 1`. */
  lemma WriteNextArtifact(fs: FileSystem, chunks: seq<string>, lang: string,
                          synthesize: (string, string) -> Bytes, i: nat)
    requires i < |chunks|
    ensures WriteArtifacts(fs, chunks[..i + 1], lang, synthesize)
         == WriteArtifacts(fs, chunks[..i], lang, synthesize)[ChunkPath(i) := synthesize(chunks[i], lang)]
  {
    assert chunks[..i + 1][..i] == chunks[..i];
  }

  /** After the writes, every chunk's path holds that chunk's speech. */
  lemma WrittenArtifacts(fs: FileSystem, chunks: seq<string>, lang: string,
                         synthesize: (string, string) -> Bytes)
    ensures var written := WriteArtifacts(fs, chunks, lang, synthesize);
      forall i :: 0 <= i < |chunks| ==> ChunkPath(i) in written && written[ChunkPath(i)] == synthesize(chunks[i], lang)
  {
    forall i | 0 <= i < |chunks|
      ensures var written := WriteArtifacts(fs, chunks, lang, synthesize);
        ChunkPath(i) in written && written[ChunkPath(i)] == synthesize(chunks[i], lang)
    {
      WrittenArtifactAt(fs, chunks, lang, synthesize, i);
    }
  }

  /** The writes leave every path that is not a chunk path of this run as it was. */
  lemma {:induction false} WriteArtifactsElsewhere(fs: FileSystem, chunks: seq<string>, lang: string,
                                                   synthesize: (string, string) -> Bytes, p: string)
    requires p !in ChunkPaths(|chunks|)
    ensures var written := WriteArtifacts(fs, chunks, lang, synthesize);
      (p in written <==> p in fs) && (p in fs ==> written[p] == fs[p])
  {
    if chunks != [] {
      var n := |chunks|;
      assert ChunkPaths(n) == ChunkPaths(n - 1) + [ChunkPath(n - 1)];
      WriteArtifactsElsewhere(fs, chunks[..n - 1], lang, synthesize, p);
    }
  }

  /** The decoded contents of the files at `paths`, appended in list order onto empty audio. */
  function Combine(fs: FileSystem, paths: seq<string>, decode: Bytes -> Audio): Audio
    requires forall i :: 0 <= i < |paths| ==> paths[i] in fs
  {
    if paths == [] then []
    else Combine(fs, paths[..|paths| - 1], decode) + decode(fs[paths[|paths| - 1]])
  }

  /** The speech of `chunks`, each synthesised and decoded on its own, in chunk order. */
  function SynthesizedAudio(chunks: seq<string>, lang: string, synthesize: (string, string) -> Bytes,
                            decode: Bytes -> Audio): Audio
  {
    if chunks == [] then []
    else SynthesizedAudio(chunks[..|chunks| - 1], lang, synthesize, decode)
         + decode(synthesize(chunks[|chunks| - 1], lang))
  }

  /** Reading back, in path order, files that hold the speech of the first `k` chunks
      yields exactly the speech of those chunks, in order: none skipped, reordered or
      duplicated. */
  lemma {:induction false} CombineChunkFiles(fs: FileSystem, chunks: seq<string>, lang: string,
                                             synthesize: (string, string) -> Bytes,
                                             decode: Bytes -> Audio, k: nat)
    requires k <= |chunks|
    requires forall i :: 0 <= i < |chunks| ==> ChunkPath(i) in fs && fs[ChunkPath(i)] == synthesize(chunks[i], lang)
    ensures Combine(fs, ChunkPaths(k), decode) == SynthesizedAudio(chunks[..k], lang, synthesize, decode)
  {
    if k > 0 {
      CombineChunkFiles(fs, chunks, lang, synthesize, decode, k - 1);
      var paths, prefix := ChunkPaths(k), chunks[..k];
      assert paths[..k - 1] == ChunkPaths(k - 1);
      assert prefix[..k - 1] == chunks[..k - 1];
      calc {
        Combine(fs, paths, decode);
        Combine(fs, paths[..k - 1], decode) + decode(fs[paths[k - 1]]);
        SynthesizedAudio(chunks[..k - 1], lang, synthesize, decode) + decode(synthesize(chunks[k - 1], lang));
        SynthesizedAudio(prefix[..k - 1], lang, synthesize, decode) + decode(synthesize(prefix[k - 1], lang));
        SynthesizedAudio(prefix, lang, synthesize, decode);
      }
    }
  }

  /** Concatenating the artifacts a run has just written exports the in-order speech
      of its chunks. */
  lemma ConcatenateWrittenArtifacts(fs: FileSystem, chunks: seq<string>, lang: string,
                                    synthesize: (string, string) -> Bytes, decode: Bytes -> Audio,
                                    encode: Audio -> Bytes, output: string)
    ensures var written := WriteArtifacts(fs, chunks, lang, synthesize);
      Concatenated(written, ChunkPaths(|chunks|), decode, encode, output)
           == Step(written[output := encode(SynthesizedAudio(chunks, lang, synthesize, decode))], None)
  {
    var n := |chunks|;
    var written := WriteArtifacts(fs, chunks, lang, synthesize);
    forall i | 0 <= i < n
      ensures ChunkPath(i) in written && written[ChunkPath(i)] == synthesize(chunks[i], lang)
    {
      WrittenArtifactAt(fs, chunks, lang, synthesize, i);
    }
    CombineChunkFiles(written, chunks, lang, synthesize, decode, n);
    assert chunks[..n] == chunks;
  }

  /** Every path of a concatenation of two lists of present paths is present. */
  lemma PresentAppend(fs: FileSystem, a: seq<string>, b: seq<string>)
    requires forall i :: 0 <= i < |a| ==> a[i] in fs
    requires forall i :: 0 <= i < |b| ==> b[i] in fs
    ensures forall i :: 0 <= i < |a + b| ==> (a + b)[i] in fs
  {
    forall i | 0 <= i < |a + b|
      ensures (a + b)[i] in fs
    {
      if i >= |a| {
        assert (a + b)[i] == b[i - |a|];
      }
    }
  }

  /** Folding a concatenated list of present paths is folding each part in turn. */
  lemma {:induction false} CombineAppend(fs: FileSystem, a: seq<string>, b: seq<string>, decode: Bytes -> Audio)
    requires forall i :: 0 <= i < |a| ==> a[i] in fs
    requires forall i :: 0 <= i < |b| ==> b[i] in fs
    ensures forall i :: 0 <= i < |a + b| ==> (a + b)[i] in fs
    ensures Combine(fs, a + b, decode) == Combine(fs, a, decode) + Combine(fs, b, decode)
  {
    PresentAppend(fs, a, b);
    if b == [] {
      assert a + b == a;
    } else {
      var front, last := b[..|b| - 1], b[|b| - 1];
      assert forall i :: 0 <= i < |front| ==> front[i] == b[i];
      CombineAppend(fs, a, front, decode);
      assert (a + b)[..|a + b| - 1] == a + front && (a + b)[|a + b| - 1] == last;
      calc {
        Combine(fs, a + b, decode);
        Combine(fs, a + front, decode) + decode(fs[last]);
        (Combine(fs, a, decode) + Combine(fs, front, decode)) + decode(fs[last]);
        Combine(fs, a, decode) + (Combine(fs, front, decode) + decode(fs[last]));
        Combine(fs, a, decode) + Combine(fs, b, decode);
      }
    }
  }

  /** Concatenating a run's chunk paths listed twice, right after the run has written
      them, finds every file and exports the in-order speech twice over. */
  lemma ConcatenateWrittenTwice(fs: FileSystem, chunks: seq<string>, lang: string,
                                synthesize: (string, string) -> Bytes, decode: Bytes -> Audio,
                                encode: Audio -> Bytes, output: string)
    ensures var written := WriteArtifacts(fs, chunks, lang, synthesize);
            var paths := ChunkPaths(|chunks|);
            var audio := SynthesizedAudio(chunks, lang, synthesize, decode);
      Concatenated(written, paths + paths, decode, encode, output)
           == Step(written[output := encode(audio + audio)], None)
  {
    var n := |chunks|;
    var written := WriteArtifacts(fs, chunks, lang, synthesize);
    var paths := ChunkPaths(n);
    forall i | 0 <= i < n
      ensures ChunkPath(i) in written && written[ChunkPath(i)] == synthesize(chunks[i], lang)
    {
      WrittenArtifactAt(fs, chunks, lang, synthesize, i);
    }
    CombineChunkFiles(written, chunks, lang, synthesize, decode, n);
    assert chunks[..n] == chunks;
    CombineAppend(written, paths, paths, decode);
  }


  function FirstMissing(fs: FileSystem, paths: seq<string>): (r: Option<nat>)
    ensures r.None? <==> forall i :: 0 <= i < |paths| ==> paths[i] in fs
    ensures r.Some? ==> r.value < |paths| && paths[r.value] !in fs
                        && forall j :: 0 <= j < r.value ==> paths[j] in fs
  {
    if paths == [] then None
    else if paths[0] !in fs then Some(0)
    else match FirstMissing(fs, paths[1..])
      case None => None
      case Some(i) => Some(i + 1)
  }

  /** Decoding every path in order and exporting the combined audio to `output`:
      the first missing path raises and nothing is exported. */
  function Concatenated(fs: FileSystem, paths: seq<string>, decode: Bytes -> Audio,
                        encode: Audio -> Bytes, output: string): Step
  {
    match FirstMissing(fs, paths)
    case Some(i) => Step(fs, Some(paths[i]))
    case None => Step(fs[output := encode(Combine(fs, paths, decode))], None)
  }

  /** Removing each path in order; removing a path that is not there raises and
      stops the remaining removals. */
  function RemoveEach(fs: FileSystem, paths: seq<string>): (r: Step)
    ensures forall p :: p in r.fs ==> p in fs && r.fs[p] == fs[p]
    ensures forall p :: p in fs && p !in paths ==> p in r.fs
    ensures r.raised.None? ==> forall p :: p in paths ==> p !in r.fs
    ensures r.raised.Some? ==> r.raised.value in paths && r.raised.value !in r.fs
  {
    if paths == [] then Step(fs, None)
    else if paths[0] !in fs then Step(fs, Some(paths[0]))
    else RemoveEach(fs - {paths[0]}, paths[1..])
  }

  /** Cleanup of distinct, present paths completes and removes exactly those paths. */
  lemma {:induction false} RemoveEachDistinct(fs: FileSystem, paths: seq<string>)
    requires Distinct(paths)
    requires forall i :: 0 <= i < |paths| ==> paths[i] in fs
    ensures RemoveEach(fs, paths) == Step(fs - (set p | p in paths), None)
  {
    if paths != [] {
      var first, rest := paths[0], paths[1..];
      forall i | 0 <= i < |rest|
        ensures rest[i] in fs - {first}
      {
        assert rest[i] == paths[i + 1];
      }
      DistinctTail(paths);
      RemoveEachDistinct(fs - {first}, rest);
      RemoveFirstThenRest(fs, paths);
    }
  }

  /** Dropping the first path keeps the rest distinct. */
  lemma DistinctTail(paths: seq<string>)
    requires paths != [] && Distinct(paths)
    ensures Distinct(paths[1..])
  {
    var rest := paths[1..];
    forall i, j | 0 <= i < j < |rest|
      ensures rest[i] != rest[j]
    {
      assert rest[i] == paths[i + 1] && rest[j] == paths[j + 1];
    }
  }

  /** Removing the first path and then the rest removes every listed path. */
  lemma RemoveFirstThenRest(fs: FileSystem, paths: seq<string>)
    requires paths != []
    ensures fs - {paths[0]} - (set p | p in paths[1..]) == fs - (set p | p in paths)
  {
    assert (set p | p in paths) == {paths[0]} + set p | p in paths[1..];
  }

  /** Once a run has written its chunks and exported `audio`, cleanup over the run's own
      chunk paths completes and removes exactly those paths. */
  lemma RemoveWrittenChunks(fs: FileSystem, chunks: seq<string>, lang: string,
                            synthesize: (string, string) -> Bytes, output: string, audio: Bytes)
    ensures var paths := ChunkPaths(|chunks|);
            var exported := WriteArtifacts(fs, chunks, lang, synthesize)[output := audio];
      RemoveEach(exported, paths) == Step(exported - (set p | p in paths), None)
  {
    var paths := ChunkPaths(|chunks|);
    var exported := WriteArtifacts(fs, chunks, lang, synthesize)[output := audio];
    forall i | 0 <= i < |paths|
      ensures paths[i] in exported
    {
      WrittenArtifactAt(fs, chunks, lang, synthesize, i);
    }
    ChunkPathsDistinct(|chunks|);
    RemoveEachDistinct(exported, paths);
  }

  /** What a run leaves at path `p` once it has written its chunks, exported `audio`
      to `output` and removed its chunk paths. */
  lemma {:induction false} WrittenExportedRemoved(fs: FileSystem, chunks: seq<string>, lang: string,
                                                  synthesize: (string, string) -> Bytes, output: string,
                                                  audio: Bytes, p: string)
    ensures var paths := ChunkPaths(|chunks|);
            var final := WriteArtifacts(fs, chunks, lang, synthesize)[output := audio] - (set q | q in paths);
      && (p in paths ==> p !in final)
      && (p !in paths && p == output ==> p in final && final[p] == audio)
      && (p !in paths && p != output ==> (p in final <==> p in fs) && (p in fs ==> final[p] == fs[p]))
  {
    if p !in ChunkPaths(|chunks|) {
      WriteArtifactsElsewhere(fs, chunks, lang, synthesize, p);
    }
  }

  /** Removing distinct, present paths `a` and then `b` is removing `b` from what is
      left once every path of `a` is gone. */
  lemma {:induction false} RemoveEachAppend(fs: FileSystem, a: seq<string>, b: seq<string>)
    requires Distinct(a)
    requires forall i :: 0 <= i < |a| ==> a[i] in fs
    ensures RemoveEach(fs, a + b) == RemoveEach(fs - (set p | p in a), b)
  {
    if a == [] {
      assert a + b == b;
      assert fs - (set p | p in a) == fs;
    } else {
      var first, rest := a[0], a[1..];
      forall i | 0 <= i < |rest|
        ensures rest[i] in fs - {first}
      {
        assert rest[i] == a[i + 1];
      }
      DistinctTail(a);
      assert (a + b)[1..] == rest + b;
      RemoveEachAppend(fs - {first}, rest, b);
      RemoveFirstThenRest(fs, a);
    }
  }

  /** Cleanup over a run's chunk paths listed twice removes each of them once and then
      raises at the first chunk path, the first one it meets a second time. */
  lemma CleanUpTwice(fs: FileSystem, n: nat)
    requires n >= 1
    requires forall i :: 0 <= i < n ==> ChunkPath(i) in fs
    ensures var paths := ChunkPaths(n);
      RemoveEach(fs, paths + paths) == Step(fs - (set p | p in paths), Some(ChunkPath(0)))
  {
    var paths := ChunkPaths(n);
    ChunkPathsDistinct(n);
    RemoveEachAppend(fs, paths, paths);
    assert paths[0] in (set p | p in paths);
  }

  /** A path listed twice makes cleanup raise, even when every listed file exists. */
  lemma {:induction false} RemoveEachRepeated(fs: FileSystem, paths: seq<string>)
    requires !Distinct(paths)
    ensures RemoveEach(fs, paths).raised.Some?
  {
    var i, j :| 0 <= i < j < |paths| && paths[i] == paths[j];
    if paths[0] in fs {
      if i == 0 {
        RemovedStaysRemoved(fs - {paths[0]}, paths[1..], paths[0], j - 1);
      } else {
        assert paths[1..][i - 1] == paths[1..][j - 1];
        RemoveEachRepeated(fs - {paths[0]}, paths[1..]);
      }
    }
  }

  lemma {:induction false} RemovedStaysRemoved(fs: FileSystem, paths: seq<string>, p: string, k: nat)
    requires p !in fs && k < |paths| && paths[k] == p
    ensures RemoveEach(fs, paths).raised.Some?
  {
    if paths[0] in fs {
      RemovedStaysRemoved(fs - {paths[0]}, paths[1..], p, k - 1);
    }
  }
}
