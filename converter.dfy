/**
 * `TextToSpeechConverter`: reads the text in chunks, saves each chunk's speech
 * under a numbered path recorded in `chunk_files`, concatenates the recorded
 * files into the output, deletes them, and optionally plays the output.
 */
module Converter {
  import opened Wrappers
  import opened Chunking
  import opened ChunkNaming
  import opened Artifacts
  import opened Playback

  /** The services the converter calls but does not implement: the speech engine
      (text and language to audio bytes), the audio decoder and encoder, the host
      platform and whether launching the player raises. */
  datatype Services = Services(synthesize: (string, string) -> Bytes,
                               decode: Bytes -> Audio,
                               encode: Audio -> Bytes,
                               platform: Platform,
                               launchRaises: Command -> bool)

  /** How a conversion ends: it finishes (with a playback outcome when playback was
      requested) or an exception raised at a path aborts the remaining phases. */
  datatype RunResult = Finished(playback: Option<PlayOutcome>) | Aborted(raisedAt: string)

  datatype RunState = RunState(fs: FileSystem, chunkFiles: seq<string>, result: RunResult)

  /** One `convert_text_to_speech` call: create, concatenate, clean up, then play if asked. */
  function Run(fs: FileSystem, chunkFiles: seq<string>, text: string, lang: string,
               outputFile: string, chunkSize: int, playAudio: bool, services: Services): RunState
  {
    var chunks := Chunks(text, chunkSize);
    var files := chunkFiles + ChunkPaths(|chunks|);
    var created := WriteArtifacts(fs, chunks, lang, services.synthesize);
    var concatenated := Concatenated(created, files, services.decode, services.encode, outputFile);
    if concatenated.raised.Some? then RunState(concatenated.fs, files, Aborted(concatenated.raised.value))
    else
      var cleaned := RemoveEach(concatenated.fs, files);
      if cleaned.raised.Some? then RunState(cleaned.fs, files, Aborted(cleaned.raised.value))
      else
        var playback := if playAudio then Some(PlayAudioFile(services.platform, outputFile, services.launchRaises))
                        else None;
        RunState(cleaned.fs, files, Finished(playback))
  }

  class TextToSpeechConverter {
    const filePath: string
    const lang: string
    const outputFile: string
    const chunkSize: int
    const playAudio: bool
    /** The paths of the chunk artifacts saved so far, in the order they were saved. */
    var chunkFiles: seq<string>
    /** The files on disk. */
    var fs: FileSystem

    constructor (fs: FileSystem, filePath: string, lang: string := "en", outputFile: string := "output.mp3",
                 chunkSize: int := 1024, playAudio: bool := true)
      ensures this.fs == fs && chunkFiles == []
      ensures this.filePath == filePath && this.lang == lang && this.outputFile == outputFile
      ensures this.chunkSize == chunkSize && this.playAudio == playAudio
    {
      this.fs := fs;
      this.filePath := filePath;
      this.lang := lang;
      this.outputFile := outputFile;
      this.chunkSize := chunkSize;
      this.playAudio := playAudio;
      chunkFiles := [];
    }

    /** The chunks of `text`, the contents of the file opened in text mode, read
        `chunkSize` characters at a time from a cursor until a read is empty. */
    method ReadInChunks(text: string) returns (chunks: seq<string>)
      ensures chunks == Chunks(text, chunkSize)
    {
      chunks := [];
      var pos := 0;
      assert text[pos..] == text;
      while true
        invariant pos <= |text|
        invariant chunks + Chunks(text[pos..], chunkSize) == Chunks(text, chunkSize)
        decreases |text| - pos
      {
        var data := Read(text, pos, chunkSize);
        ReadOn(text, pos, chunkSize, chunks);
        if data == [] {
          break;
        }
        chunks := chunks + [data];
        pos := pos + |data|;
      }
    }

    /** Synthesises every chunk of `text` and saves it under its chunk path, appending
        the path to `chunkFiles`; returns the progress count advanced chunk by chunk. */
    method CreateAudioChunks(text: string, synthesize: (string, string) -> Bytes) returns (processed: nat)
      modifies this`chunkFiles, this`fs
      ensures chunkFiles == old(chunkFiles) + ChunkPaths(|Chunks(text, chunkSize)|)
      ensures fs == WriteArtifacts(old(fs), Chunks(text, chunkSize), lang, synthesize)
      ensures forall i :: 0 <= i < |Chunks(text, chunkSize)| ==>
                ChunkPath(i) in fs && fs[ChunkPath(i)] == synthesize(Chunks(text, chunkSize)[i], lang)
      ensures processed == |Join(Chunks(text, chunkSize))|
      ensures chunkSize != 0 ==> processed == |text|
    {
      var chunks := ReadInChunks(text);
      var fs0, files0 := fs, chunkFiles;
      processed := 0;
      for i := 0 to |chunks|
        invariant chunkFiles == files0 + ChunkPaths(i)
        invariant fs == WriteArtifacts(fs0, chunks[..i], lang, synthesize)
        invariant processed == |Join(chunks[..i])|
      {
        var chunkFile := ChunkPath(i);
        WriteNextArtifact(fs0, chunks, lang, synthesize, i);
        JoinNext(chunks, i);
        AppendChunkPath(files0, i);
        fs := fs[chunkFile := synthesize(chunks[i], lang)];
        chunkFiles := chunkFiles + [chunkFile];
        processed := processed + |chunks[i]|;
      }
      assert chunks[..|chunks|] == chunks;
      WrittenArtifacts(fs0, chunks, lang, synthesize);
      assert chunkSize != 0 ==> processed == |text| by {
        if chunkSize != 0 {
          ChunksAreLossless(text, chunkSize);
        }
      }
    }

    /** Decodes the files in `chunkFiles`, in order, appends them onto empty audio and
        exports the result to `outputFile`; a missing file raises before any export. */
    method ConcatenateAudioFiles(decode: Bytes -> Audio, encode: Audio -> Bytes) returns (raised: Option<string>)
      modifies this`fs
      ensures Step(fs, raised) == Concatenated(old(fs), chunkFiles, decode, encode, outputFile)
    {
      var combined: Audio := [];
      for i := 0 to |chunkFiles|
        invariant forall j :: 0 <= j < i ==> chunkFiles[j] in fs
        invariant combined == Combine(fs, chunkFiles[..i], decode)
      {
        var file := chunkFiles[i];
        if file !in fs {
          return Some(file);
        }
        assert chunkFiles[..i + 1][..i] == chunkFiles[..i];
        combined := combined + decode(fs[file]);
      }
      assert chunkFiles[..|chunkFiles|] == chunkFiles;
      fs := fs[outputFile := encode(combined)];
      raised := None;
    }

    /** Deletes the files in `chunkFiles`, in order; deleting a missing file raises and
        stops the remaining deletions. */
    method CleanUpChunks() returns (raised: Option<string>)
      modifies this`fs
      ensures Step(fs, raised) == RemoveEach(old(fs), chunkFiles)
    {
      for i := 0 to |chunkFiles|
        invariant RemoveEach(fs, chunkFiles[i..]) == RemoveEach(old(fs), chunkFiles)
      {
        var chunkFile := chunkFiles[i];
        assert chunkFiles[i..][1..] == chunkFiles[i + 1..];
        if chunkFile !in fs {
          return Some(chunkFile);
        }
        fs := fs - {chunkFile};
      }
      assert chunkFiles[|chunkFiles|..] == [];
      raised := None;
    }

    /** The whole conversion: create, concatenate, clean up, then play only if `playAudio`. */
    method ConvertTextToSpeech(text: string, services: Services) returns (result: RunResult)
      modifies this
      ensures RunState(fs, chunkFiles, result)
           == Run(old(fs), old(chunkFiles), text, lang, outputFile, chunkSize, playAudio, services)
    {
      var processed := CreateAudioChunks(text, services.synthesize);
      var raised := ConcatenateAudioFiles(services.decode, services.encode);
      if raised.Some? {
        return Aborted(raised.value);
      }
      raised := CleanUpChunks();
      if raised.Some? {
        return Aborted(raised.value);
      }
      var playback := None;
      if playAudio {
        playback := Some(PlayAudioFile(services.platform, outputFile, services.launchRaises));
      }
      result := Finished(playback);
    }
  }

  /** The state a fresh conversion ends in. */
  lemma {:induction false} FreshRunState(fs: FileSystem, text: string, lang: string, outputFile: string,
                                         chunkSize: int, playAudio: bool, services: Services)
    ensures var chunks := Chunks(text, chunkSize);
            var paths := ChunkPaths(|chunks|);
            var audio := SynthesizedAudio(chunks, lang, services.synthesize, services.decode);
            var exported := WriteArtifacts(fs, chunks, lang, services.synthesize)[outputFile := services.encode(audio)];
            var playback := if playAudio then Some(PlayAudioFile(services.platform, outputFile, services.launchRaises)) else None;
      Run(fs, [], text, lang, outputFile, chunkSize, playAudio, services)
        == RunState(exported - (set p | p in paths), paths, Finished(playback))
  {
    var chunks := Chunks(text, chunkSize);
    var n := |chunks|;
    var paths := ChunkPaths(n);
    assert [] + paths == paths;
    var created := WriteArtifacts(fs, chunks, lang, services.synthesize);
    var audio := SynthesizedAudio(chunks, lang, services.synthesize, services.decode);
    var exported := created[outputFile := services.encode(audio)];
    ConcatenateWrittenArtifacts(fs, chunks, lang, services.synthesize, services.decode, services.encode, outputFile);
    RemoveWrittenChunks(fs, chunks, lang, services.synthesize, outputFile, services.encode(audio));
  }

  /** A conversion by a fresh converter always finishes: it plays exactly when asked,
      leaves no chunk artifact behind, writes the in-order speech of every chunk to the
      output (unless the output path is itself a chunk path, which cleanup deletes),
      and leaves every other file as it was. */
  lemma FreshRun(fs: FileSystem, text: string, lang: string, outputFile: string,
                 chunkSize: int, playAudio: bool, services: Services)
    ensures var chunks := Chunks(text, chunkSize);
            var paths := ChunkPaths(|chunks|);
            var run := Run(fs, [], text, lang, outputFile, chunkSize, playAudio, services);
      && run.chunkFiles == paths
      && run.result.Finished?
      && (run.result.playback.Some? <==> playAudio)
      && (forall p :: p in paths ==> p !in run.fs)
      && (outputFile !in paths ==>
            outputFile in run.fs
            && run.fs[outputFile] == services.encode(SynthesizedAudio(chunks, lang, services.synthesize, services.decode)))
      && (forall p :: p !in paths && p != outputFile ==>
            (p in run.fs <==> p in fs) && (p in fs ==> run.fs[p] == fs[p]))
  {
    var chunks := Chunks(text, chunkSize);
    var paths := ChunkPaths(|chunks|);
    var audio := services.encode(SynthesizedAudio(chunks, lang, services.synthesize, services.decode));
    var final := WriteArtifacts(fs, chunks, lang, services.synthesize)[outputFile := audio] - (set q | q in paths);
    FreshRunState(fs, text, lang, outputFile, chunkSize, playAudio, services);
    var run := Run(fs, [], text, lang, outputFile, chunkSize, playAudio, services);
    assert run.fs == final;
    forall p
      ensures && (p in paths ==> p !in final)
              && (p !in paths && p == outputFile ==> p in final && final[p] == audio)
              && (p !in paths && p != outputFile ==> (p in final <==> p in fs) && (p in fs ==> final[p] == fs[p]))
    {
      WrittenExportedRemoved(fs, chunks, lang, services.synthesize, outputFile, audio, p);
    }
  }

  /** `chunkFiles` is never reset, so converting again with a converter that has already
      converted a text of the same number of chunks lists every chunk path twice: the
      concatenation finds every file and exports the speech of the chunks twice over,
      and the cleanup then raises at the first chunk path, the first path it meets a
      second time. */
  lemma {:induction false} ReusedConverterAborts(fs: FileSystem, text: string, lang: string, outputFile: string,
                                                 chunkSize: int, playAudio: bool, services: Services)
    requires |Chunks(text, chunkSize)| >= 1
    ensures var chunks := Chunks(text, chunkSize);
            var paths := ChunkPaths(|chunks|);
            var audio := SynthesizedAudio(chunks, lang, services.synthesize, services.decode);
            var run := Run(fs, paths, text, lang, outputFile, chunkSize, playAudio, services);
      && run.chunkFiles == paths + paths
      && run.result == Aborted(ChunkPath(0))
      && (outputFile !in paths ==> outputFile in run.fs && run.fs[outputFile] == services.encode(audio + audio))
  {
    var chunks := Chunks(text, chunkSize);
    var n := |chunks|;
    var paths := ChunkPaths(n);
    var audio := SynthesizedAudio(chunks, lang, services.synthesize, services.decode);
    var created := WriteArtifacts(fs, chunks, lang, services.synthesize);
    var exported := created[outputFile := services.encode(audio + audio)];
    ConcatenateWrittenTwice(fs, chunks, lang, services.synthesize, services.decode, services.encode, outputFile);
    forall i | 0 <= i < n
      ensures ChunkPath(i) in exported
    {
      WrittenArtifactAt(fs, chunks, lang, services.synthesize, i);
    }
    CleanUpTwice(exported, n);
  }

  /** The output a fresh conversion exports is the speech of the text's chunks, in
      order; empty input (or a zero chunk size) exports empty audio. */
  lemma FreshRunOutput(fs: FileSystem, text: string, lang: string, outputFile: string,
                       chunkSize: int, playAudio: bool, services: Services)
    requires outputFile !in ChunkPaths(|Chunks(text, chunkSize)|)
    ensures var run := Run(fs, [], text, lang, outputFile, chunkSize, playAudio, services);
      && outputFile in run.fs
      && (text == [] || chunkSize == 0 ==> run.fs[outputFile] == services.encode([]))
  {
    FreshRun(fs, text, lang, outputFile, chunkSize, playAudio, services);
  }
}
