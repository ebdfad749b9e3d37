# Text-to-speech chunking pipeline, modelled in Dafny

This project models the ordering and bookkeeping core of `TextToSpeechConverter`
(script.py), the class that turns a plain-text file into one spoken-word MP3:

- it reads the file in text mode, `chunk_size` characters at a time, until a read
  comes back empty (`read_in_chunks`);
- it synthesises each chunk with the speech engine, saves the result as
  `audio_chunks/chunk_{i}.mp3` and appends that path to the `chunk_files` field
  (`create_audio_chunks`);
- it decodes the recorded files in list order, appends them onto empty audio and
  exports the result to the output file (`concatenate_audio_files`);
- it deletes every recorded file (`clean_up_chunks`);
- if `play_audio` is set, it opens the output with the platform's default player and
  reports, but does not raise, any failure (`play_audio_file`);
- `convert_text_to_speech` runs these phases in this fixed order.

The external services are parameters (the `Services` record in `converter.dfy`):

- the speech engine is a function from chunk text and language code to audio bytes;
- the MP3 decoder is a function from bytes to audio;
- the MP3 encoder is a function from audio to bytes;
- the host platform (`os.name`) is a value;
- whether launching the player raises is a predicate on the command.

Decoded audio is a sequence of samples: appending is `+` and `AudioSegment.empty()` is `[]`.
The filesystem is a map from path to contents, held in the converter's `fs` field.
The input file is given to the model as its text, after text-mode decoding.

Modules, one per component:

- `Chunking` (chunking.dfy): the reader, with the partition lemmas.
- `ChunkNaming` (chunk_naming.dfy): the chunk paths, with decimal rendering and its inverse.
- `Artifacts` (artifacts.dfy): the filesystem. It holds the chunk writes, the in-order
  fold and the deletions as specification functions, with lemmas about them.
- `Playback` (playback.dfy): the platform dispatch.
- `Converter` (converter.dfy): the class. It has the `chunkFiles` and `fs` fields, one
  method per source method and the `Run` specification of one conversion.
- `Wrappers` (wrappers.dfy): `Option`.

The class methods are proved against the specification functions. The lemmas then give
the properties of one conversion by a freshly constructed converter:

- the chunks partition the text losslessly;
- the chunks have the expected lengths and count;
- the chunk paths never collide;
- the output holds the speech of every chunk, in chunk order;
- no chunk file remains afterwards;
- every unrelated file is untouched;
- playback happens exactly when requested and never aborts the run.

Behaviour of the code that the model keeps as written:

- Chunks are counted in characters, not bytes, because the file is opened in text mode.
- The order of `chunk_files` is the order of the appends, not a sort by index.
- There is no error taxonomy. The exceptions the code can raise on the modelled
  filesystem propagate and abort the remaining phases. The cases are decoding a recorded
  path that does not exist, and deleting one that does not exist.
- Cleanup is not best-effort: the first failed deletion stops the remaining ones.
- The output is not written atomically.
- Empty input, or a chunk size of 0, exports empty audio. `read(0)` returns `''`, so a
  chunk size of 0 yields no chunks at all.

## Model

| member | source | states |
|---|---|---|
| Chunking.Read | script.py:23 | `read(n)` returns the next characters from the cursor: at most `n` of them for `n >= 0`, all the rest for `n < 0`; for `n != 0` it comes back empty exactly at end of file |
| Chunking.ReadLength | script.py:23 | `read(n)` returns exactly `n` characters when at least `n` remain, and the whole rest of the text when fewer remain or `n` is negative |
| Chunking.Chunks | script.py:20-26 | every chunk the generator yields is non-empty; empty text, or chunk size 0, yields no chunk |
| Chunking.ChunksFrom | script.py:22-26 | one step of the generator at cursor `pos`: the chunks of the rest are the next read followed by the chunks after it, or none once a read is empty |
| Chunking.ChunksAreLossless | script.py:22-26 | for any non-zero chunk size, joining the chunks in order gives back exactly the text |
| Chunking.ChunkLengths | script.py:23-26 | for chunk size `n >= 1`, every chunk but the last has exactly `n` characters and the last has between 1 and `n` |
| Chunking.ChunkCount | script.py:22-25 | for chunk size `n >= 1` the number of chunks is `ceil(L / n)`, where `L` is the text length; so empty text gives zero chunks |
| ChunkNaming.Decimal | script.py:34 | the f-string rendering of an index is a non-empty string of decimal digits |
| ChunkNaming.DecimalLeadingDigit | script.py:34 | the rendering starts with `0` exactly when the index is 0, so there is no leading zero |
| ChunkNaming.DecimalRoundTrip | script.py:34 | parsing the decimal rendering of `n` gives back `n` |
| ChunkNaming.ChunkPathRoundTrip | script.py:34 | the index can be read back from `audio_chunks/chunk_{i}.mp3` |
| ChunkNaming.ChunkPathInjective | script.py:34 | distinct chunk indices give distinct paths, so no artifact overwrites another within a run |
| ChunkNaming.ChunkPaths | script.py:32-36 | the paths recorded for `n` chunks are `n` paths, and entry `i` is the path of chunk `i` |
| ChunkNaming.ChunkPathsDistinct | script.py:32-36 | the recorded paths of one run are pairwise distinct |
| Artifacts.WrittenArtifactAt | script.py:32-35 | after the writes, the path of chunk `i` exists and holds the speech engine's output for chunk `i` in language `lang` |
| Artifacts.WriteArtifactsElsewhere | script.py:32-35 | the writes leave every path that is not a chunk path of the run exactly as it was, present or absent |
| Artifacts.CombineAppend | script.py:41-44 | folding the decoded files of two lists of existing paths, one after the other, is the fold of the first list followed by the fold of the second |
| Artifacts.CombineChunkFiles | script.py:41-44 | folding the decoded files of the first `k` chunk paths in list order gives the speech of the first `k` chunks, in order: none skipped, reordered or duplicated |
| Artifacts.ConcatenateWrittenArtifacts | script.py:40-46 | concatenating the files a run has just written never raises; it exports the in-order speech of the run's chunks to the output path and changes nothing else |
| Artifacts.ConcatenateWrittenTwice | script.py:40-46 | concatenating a run's chunk paths listed twice, right after the run has written them, never raises and exports the in-order speech of the chunks twice over |
| Artifacts.FirstMissing | script.py:42-43 | it finds nothing exactly when every listed path exists; otherwise it gives the first listed path that is absent, where `from_mp3` raises |
| Artifacts.RemoveEach | script.py:49-51 | deletion only removes files and never changes contents; every existing path that is not listed survives; if it completes, none of the listed paths remains; if it raises, it raises at a listed path that is absent |
| Artifacts.RemoveEachDistinct | script.py:49-51 | deleting distinct, existing paths completes and removes exactly those paths |
| Artifacts.RemoveEachAppend | script.py:49-51 | deleting distinct, existing paths and then a second list is deleting the second list from what is left once the first list is gone |
| Artifacts.CleanUpTwice | script.py:49-51 | deleting a run's chunk paths listed twice removes each of them once, then raises at the first chunk path |
| Artifacts.RemoveEachRepeated | script.py:49-51 | a path listed twice makes the deletions raise, even when every listed file exists |
| Artifacts.RemoveWrittenChunks | script.py:49-51 | after a run has written its chunks and exported, deleting the run's chunk paths completes and removes exactly those paths |
| Artifacts.WrittenExportedRemoved | script.py:28-51 | after a run writes its chunks, exports and deletes its chunk paths: no chunk path remains; the output holds the export unless it is a chunk path; every other path is as before |
| Playback.OpenCommand | script.py:55-60 | POSIX opens with `xdg-open <file>` without a shell, Windows with `start <file>` through the shell, and any other platform has no opener; the program word is fixed by the platform and the file is the last argument |
| Playback.PlayAudioFile | script.py:53-62 | playback launches the platform's opener unless the platform is unsupported or the launch raises; either failure becomes a reported error, never an exception |
| Converter.TextToSpeechConverter.constructor | script.py:9-15 | the fields take the given values (defaults `en`, `output.mp3`, 1024, play on) and `chunk_files` starts empty |
| Converter.TextToSpeechConverter.ReadInChunks | script.py:20-26 | the cursor loop reads until an empty read and returns exactly `Chunks(text, chunk_size)` |
| Converter.TextToSpeechConverter.CreateAudioChunks | script.py:28-38 | `chunk_files` gains the paths of chunks `0..n-1` in index order; each holds its chunk's speech; no other file changes; the progress count equals the text length for any non-zero chunk size |
| Converter.TextToSpeechConverter.ConcatenateAudioFiles | script.py:40-47 | the filesystem and the raised path are those of `Concatenated`: the output is the in-order fold of the recorded files, or a missing file raises and nothing is exported |
| Converter.TextToSpeechConverter.CleanUpChunks | script.py:49-51 | the filesystem and the raised path are those of `RemoveEach` over `chunk_files`, in list order |
| Converter.TextToSpeechConverter.ConvertTextToSpeech | script.py:64-69 | the final filesystem, `chunk_files` and outcome are those of `Run`: create, then concatenate, then clean up, then play only if `play_audio` is set; an exception aborts the phases after it |
| Converter.FreshRunState | script.py:64-69 | a conversion by a fresh converter finishes. Its filesystem is the chunk writes, then the export of the in-order speech, minus the run's chunk paths. Playback is attempted exactly when `play_audio` is set |
| Converter.FreshRun | script.py:64-69 | a fresh conversion finishes. It records one path per chunk and plays exactly when asked. It leaves no chunk file behind. The output holds the encoded in-order speech unless the output path is spelled as one of the run's chunk paths. Every other file is unchanged |
| Converter.ReusedConverterAborts | script.py:64-69 | `chunk_files` is never reset. Take a converter that has already converted a text with the same (non-zero) number of chunks. Its next conversion lists every chunk path twice and aborts at the first chunk path, which is in cleanup, since concatenation finds every file. The output, unless spelled as a chunk path, holds the encoded speech of the chunks twice over |
| Converter.FreshRunOutput | script.py:40-46 | when the output path is not a chunk path, a fresh conversion leaves the output file in place; for empty text or chunk size 0 it holds encoded empty audio |

## Left out

- Speech synthesis (script.py:33, 35) is a total function parameter. Failures of the
  speech engine or of `tts.save` (network errors, disk full) are not modelled, so the
  create phase never raises.
- Decoding and exporting (script.py:43, 46) are total function parameters. A recorded
  file that exists but is not valid MP3, and a failed export, are not modelled. Only a
  missing file raises.
- Deleting a file (script.py:51) raises only when the path is absent. Permission errors
  and similar OS failures are not modelled.
- The progress bar, its byte total from `os.path.getsize` (script.py:30-31) and all
  `print` output are display only. The count the bar is advanced by is returned by
  `CreateAudioChunks` as `processed`.
- The constructor's `os.makedirs('audio_chunks')` (script.py:17-18) is not modelled,
  because the filesystem model has files and no directories.
- The generator's laziness is not modelled: `CreateAudioChunks` reads every chunk
  before synthesising the first. Reads never fail in the model, so only the order of
  effects differs, because the run never writes the input file. The one exception is an
  input file whose path is a chunk path, which is not modelled. Read and text-decoding
  failures (script.py:23, 29, e.g. `UnicodeDecodeError`) are not modelled. In the source
  such a failure partway through the file stops the run after chunks `0 .. k-1` are
  already saved and recorded, and leaves those files on disk.
- Opening the input file (script.py:29) is not modelled. `filePath` is kept as a field,
  and the text is passed to the methods. Text-mode decoding and newline translation are
  assumed to have happened already.
- `subprocess.run` (script.py:56, 58) is modelled only by whether it raises. The player's
  exit status and its own behaviour are outside the model.
- The command-line wiring (script.py:72-82) is not modelled. It never passes
  `chunk_size`, so a command-line run always uses 1024. It passes `play_audio` from
  `--play`, which defaults to off, while the constructor's own default is on.
- Paths are compared by spelling only. The filesystem map does not normalise paths, fold
  case or follow links, so two spellings of one file (`./output.mp3` and `output.mp3`, or
  a link to a chunk file) are two different entries. "The output path is a chunk path"
  in `FreshRun` and `WrittenExportedRemoved` means string equality with
  `audio_chunks/chunk_{i}.mp3`; aliasing through another spelling is not modelled.
