# create_story text core in Dafny

This project models the text-shaping core of `create_story`, a pipeline that
turns a story in a Google Doc into narrated audio and video. The model covers
the parts of the pipeline that decide what text goes where:

- **`TextProcessor`** (`text_processor.dfy`) splits a story into paragraphs
  on `"\n\n"`. It packs the paragraphs greedily into chunks of at most
  `max_chars = 4000` paragraph characters, unless one paragraph is longer
  and then forms a chunk of its own. It names one `partNNN.txt` file per
  chunk under `<output_dir>/<story_name>/text`.
- **`TTSService`** (`tts_service.dfy`) cuts a text on `'.'` into chunks for
  the speech API. `generate_audio` sends one request per chunk to a
  `<output>.part<i>.mp3` file. It then renames the single part, or merges
  all parts in order and removes them.
- **`TTSProcessor`** (`tts_processor.dfy`) normalises whitespace
  (`optimize_text`). It also hands a list of texts to `process_batch` in
  slices of `batch_size`.
- **`FileHelper.clean_filename`** (`file_helper.dfy`) keeps the characters
  a file name may hold and strips outer whitespace.
- **`ValidationHelper`** (`validation_helper.dfy`) holds the `validate_*`
  checks. They work over an abstract filesystem, a map from path to kind
  and size, and return `Pass` or the exception raised.
- **`GoogleDocsService._extract_text`** (`google_docs_service.dfy`)
  concatenates the `textRun` contents of a Docs API v1 document. It raises
  what Python raises when a key is missing.

Shared modules:

- **`PyStr`** gives the Python `str` operations the code uses, on the
  arguments the code passes them:
  - `isspace` over its fixed character set;
  - `strip`, `split()` and `join`;
  - `split(sep)` for a non-empty `sep` (the code splits only on `"\n\n"`
    and `'.'`);
  - `str(n)` for a natural number `n` and `zfill` of an unsigned digit
    string (the code pads only chunk numbers counted from 1).
- **`PyPath`** is POSIX `os.path.join`.
- **`Greedy`** is the packing loop that both chunkers share, parameterised
  by the test that decides whether an item joins the open group, with the
  loop-step lemmas both chunkers use. It also holds the list helpers
  `Flatten`, `FlatMap` and `MapEach`.
- **`Wrappers`** holds `Option`, `Result` and `Outcome`, and `PyError`, the
  Python exceptions the code raises (`AttributeError`, `TypeError`,
  `FileNotFoundError`, `ValueError`) with their messages.

Points where the code's behaviour differs from what its names and
docstrings suggest; the model follows the code:

- **Separators in `_create_chunks`.** Its docstring promises chunks
  `<= max_chars`, but the test counts only paragraph lengths, not the
  `"\n\n"` separators. A joined chunk of k paragraphs can therefore be up
  to 2·(k−1) characters longer than `max_chars` (`JoinedLength`,
  `SeparatorsNotCounted`).
- **Oversized paragraphs.** `_create_chunks` never cuts a paragraph: one
  longer than `max_chars` becomes a chunk of its own
  (`OversizedParagraphAlone`).
- **`split_text`.** It splits on `'.'` only. It appends `'.'` to every
  piece, so the chunks together are the text plus one final `'.'`
  (`SplitTextConcat`).
- **Temporary file names.** `generate_audio` names its files
  `<output>.part<i>.mp3` with `i` counted from 0 and not zero-padded
  (`TempFileName`).
- **Batch order.** `process_batch` collects results in completion order
  (`as_completed`). The model passes `process_batch` in as a function and
  concatenates the batch outputs in input order.

## Model

| member | source | states |
|---|---|---|
| PyStr.Strip | src/services/text_processor.py:43 | `str.strip()`: the result has no leading or trailing whitespace and is no longer than the input |
| PyStr.StripSlice | src/services/text_processor.py:43 | the stripped string is a contiguous slice of the input; everything cut off on either side is whitespace |
| PyStr.StripEmptyIff | src/utils/validation_helper.py:23 | `len(s.strip()) == 0` exactly when every character of `s` is whitespace |
| PyStr.StripIdempotent | src/utils/file_helper.py:17 | stripping twice is stripping once |
| PyStr.StripNotContains | src/services/text_processor.py:43 | stripping a piece that holds no separator yields no separator |
| PyStr.Split | src/services/text_processor.py:43 | `str.split(sep)` always returns at least one piece |
| PyStr.Join | src/services/text_processor.py:57 | `sep.join(pieces)`: the pieces with `sep` between neighbours; pinned by `JoinSplit` and `SplitJoin` (inverse of `split(sep)`), `WordsOfJoin` and `JoinWordsShape` (for `' '`) and `JoinedLength` (its length) |
| PyStr.JoinSplit | src/services/text_processor.py:43 | `sep.join(s.split(sep)) == s` |
| PyStr.SplitPiecesFree | src/services/text_processor.py:43 | no piece of `s.split(sep)` contains `sep` |
| PyStr.SplitJoin | src/services/text_processor.py:43 | pieces in which the separator does not occur even with its first `len(sep)-1` characters appended, joined by the separator, split back into the same pieces |
| PyStr.SplitAfter | src/services/text_processor.py:43 | a block in which the separator does not occur even with its first `len(sep)-1` characters appended, followed by the separator, splits off as the first piece, before the pieces of the rest |
| PyStr.Words | src/services/tts_processor.py:43 | `str.split()`: every word is non-empty and holds no whitespace |
| PyStr.WordsOfWord | src/services/tts_processor.py:43 | a non-empty string without whitespace splits into itself alone |
| PyStr.WordsAtSpace | src/services/tts_processor.py:43 | any whitespace character separates: the words of `a + c + b` are the words of `a` followed by the words of `b` |
| PyStr.WordsOfStrip | src/services/tts_processor.py:41-43 | `s.strip().split() == s.split()` |
| PyStr.WordsOfJoin | src/services/tts_processor.py:43 | words joined by `' '` split back into the same words |
| PyStr.JoinWordsShape | src/services/tts_processor.py:43 | words joined by `' '` have no outer whitespace, no whitespace but `' '`, and no two whitespace characters in a row |
| PyStr.Decimal | src/services/text_processor.py:30 | `str(n)` for a natural `n`: at least one character, all decimal digits; `ParseZFill` reads it back as `n`, so it is the decimal numeral |
| PyStr.ZFill | src/services/text_processor.py:30 | `s.zfill(width)` for an unsigned digit string: the length is `max(len(s), width)`; `ParseZFill` shows the added characters are leading zeros |
| PyStr.ParseZFill | src/services/text_processor.py:30 | `str(n).zfill(w)` consists of digits and reads back as `n` |
| PyStr.ZFillInjective | src/services/text_processor.py:30 | different numbers give different zero-padded decimals |
| PyStr.DecimalInjective | src/services/tts_service.py:58 | different numbers give different `str(i)` |
| PyStr.DecimalWidth | src/services/text_processor.py:30 | `str(n)` has 1, 2 or 3 digits for `n` below 10, 100 or 1000 |
| PyPath.PathJoin | src/services/text_processor.py:18 | `os.path.join(a, b)` (POSIX): the joined path ends with `b`; `PathJoinInjective` shows `a` contributes the same prefix for every relative `b` |
| PyPath.PathJoinInjective | src/services/text_processor.py:30 | joining one directory with two different relative names gives two different paths |
| Greedy.Pack | src/services/text_processor.py:45-68 | the greedy packing loop shared with `split_text` (src/services/tts_service.py:12-31): never more groups than items plus the open group; fixed on every input by `PackLaws` |
| Greedy.PackLaws | src/services/text_processor.py:45-68 | the greedy loop's groups partition the items in order; groups are non-empty; every item after a group's first passed the fit test; a group is closed only when the next item fails the test |
| Greedy.FlatMapAppend | src/services/text_processor.py:43 | a list comprehension over a concatenation is the concatenation of the comprehensions |
| Greedy.FlatMapIdentity | src/services/text_processor.py:43 | a comprehension that keeps every item as it is returns its input |
| TextProcessor.SplitIntoParagraphs | src/services/text_processor.py:41-43 | at most one paragraph per piece of `text.split("\n\n")`; pinned by `ParagraphsWellFormed`, `ParagraphsInOrder`, `NoParagraphs` and `ParagraphsRoundTrip` |
| TextProcessor.KeepStrippedParagraphs | src/services/text_processor.py:43 | from separator-free pieces, every kept piece is non-empty, stripped and free of `"\n\n"` |
| TextProcessor.ParagraphsWellFormed | src/services/text_processor.py:41-43 | every paragraph of `_split_into_paragraphs` is non-empty, has no outer whitespace and holds no `"\n\n"` |
| TextProcessor.ParagraphsInOrder | src/services/text_processor.py:41-43 | a block in which `"\n\n"` does not occur even with `"\n"` appended, followed by `"\n\n"`, gives its paragraph (if not blank) before all paragraphs of the rest of the text |
| TextProcessor.NoParagraphs | src/services/text_processor.py:43 | the empty text has no paragraphs |
| TextProcessor.ParagraphsRoundTrip | src/services/text_processor.py:41-43 | well-formed paragraphs joined by `"\n\n"` split back into the same paragraphs |
| TextProcessor.ChunkGroups | src/services/text_processor.py:45-68 | the paragraph groups behind the chunks: never more groups than paragraphs; fixed by `PackLaws` under the `current_length + para_length > max_chars` test |
| TextProcessor.JoinEach | src/services/text_processor.py:57 | one chunk text per group, each the group joined by `"\n\n"`; `JoinedLength` gives each length and `ChunksRejoin` shows nothing is lost |
| TextProcessor.CreateChunks | src/services/text_processor.py:45-68 | the loop's chunks are the groups of the greedy packing under `current_length + para_length > max_chars`, each joined by `"\n\n"` |
| TextProcessor.ChunksPartition | src/services/text_processor.py:45-68 | the chunks' paragraph groups, concatenated, are the paragraph list; every chunk holds a paragraph; no chunks exactly when no paragraphs |
| TextProcessor.ChunksWithinLimit | src/services/text_processor.py:54 | every chunk's paragraph lengths sum to at most `max_chars`, unless it is one paragraph longer than `max_chars` |
| TextProcessor.ChunksGreedy | src/services/text_processor.py:54-59 | a chunk is closed only when the next paragraph would take it past `max_chars` |
| TextProcessor.OversizedParagraphAlone | src/services/text_processor.py:54-59 | a paragraph longer than `max_chars` is a chunk of its own |
| TextProcessor.JoinedLength | src/services/text_processor.py:57 | a chunk of k paragraphs is their total length plus 2·(k−1) characters |
| TextProcessor.SeparatorsNotCounted | src/services/text_processor.py:54 | paragraphs `"a"` and `"b"` under a limit of 2 share the chunk `"a\n\nb"`, which is 4 characters long |
| TextProcessor.ChunksRejoin | src/services/text_processor.py:41-68 | the chunks of a text, joined by `"\n\n"` and split again, are exactly the text's paragraphs |
| TextProcessor.PartFileName | src/services/text_processor.py:30 | `f"part{str(i).zfill(3)}.txt"` (no contract of its own); `PartFileNames` proves it injective with three digits for 1 to 999 |
| TextProcessor.PartPath | src/services/text_processor.py:18-30 | `os.path.join(output_dir, story_name, "text", part_name)` (no contract of its own); `PartPathsDistinct` proves two chunk numbers never share a path |
| TextProcessor.PartFileNames | src/services/text_processor.py:30 | different chunk numbers give different `partNNN.txt` names; numbers 1 to 999 get exactly three digits |
| TextProcessor.PartPathsDistinct | src/services/text_processor.py:18-30 | no two chunk files of one story share a path |
| TextProcessor.SaveChunks | src/services/text_processor.py:28-32 | chunk `k` (from 0) is saved to `<text_dir>/part{k+1:03}.txt`; the returned paths follow chunk order |
| TextProcessor.ProcessText | src/services/text_processor.py:12-35 | `process_text` returns one path per chunk of the text, in order, and saves each chunk's content under its path |
| TtsService.Sentences | src/services/tts_service.py:18 | `text.split('.')` has at least one piece |
| TtsService.Dotted | src/services/tts_service.py:22-26 | the text `current_chunk += sentence + '.'` builds from a group: its length is the pieces' lengths plus one per piece; `DottedAppend` and `DottedJoin` pin it as `'.'.join(group) + '.'` |
| TtsService.SentenceGroups | src/services/tts_service.py:18-31 | the groups of pieces behind the chunks: never more groups than pieces of `text.split('.')`; fixed by `PackLaws` under the strict `<` test |
| TtsService.DottedEach | src/services/tts_service.py:25-29 | one chunk text per group; `JoinDottedEach` and `SplitTextConcat` show the chunks concatenate to the text plus `'.'` |
| TtsService.DottedAppend | src/services/tts_service.py:22 | appending a piece and a `'.'` distributes over concatenated groups |
| TtsService.DottedJoin | src/services/tts_service.py:22-26 | a chunk is its pieces joined by `'.'` plus a final `'.'` |
| TtsService.SplitText | src/services/tts_service.py:12-31 | the loop's chunks are the groups of the greedy packing under `len(current_chunk) + len(sentence) < MAX_CHARS`, each piece followed by `'.'` |
| TtsService.JoinDottedEach | src/services/tts_service.py:12-31 | the chunks, concatenated, are all the pieces with a `'.'` after each |
| TtsService.SplitTextConcat | src/services/tts_service.py:12-31 | the chunks, concatenated, are the text with one `'.'` added at the end |
| TtsService.SplitTextPieces | src/services/tts_service.py:12-31 | the chunks' groups partition the pieces of `text.split('.')`; there is at least one chunk; every chunk is non-empty and ends with `'.'` |
| TtsService.SplitTextWithinLimit | src/services/tts_service.py:21 | every chunk is at most `MAX_CHARS` long, unless it is one piece at least `MAX_CHARS` long |
| TtsService.OversizedSentenceAlone | src/services/tts_service.py:21-26 | a piece at least `MAX_CHARS` long is a chunk of its own |
| TtsService.SplitTextGreedy | src/services/tts_service.py:21-26 | a new chunk starts only when the current chunk plus the next piece reaches `MAX_CHARS` |
| TtsService.SplitTextEmpty | src/services/tts_service.py:12-31 | the empty text gives the single chunk `"."` |
| TtsService.SplitTextNonEmpty | src/services/tts_service.py:12-31 | there is always at least one chunk |
| TtsService.TempFileName | src/services/tts_service.py:58 | `f"{output_file}.part{i}.{AUDIO_FORMAT}"` (no contract of its own); `TempFileNamesDistinct` proves different indexes give different names |
| TtsService.TempFileNamesDistinct | src/services/tts_service.py:58 | different chunk indexes give different temporary files |
| TtsService.RequestAudio | src/services/tts_service.py:56-80 | one speech request per chunk, in order, streamed to `.part<k>.mp3`; one part is renamed to the output; other counts are merged in order, then removed |
| TtsService.GenerateAudio | src/services/tts_service.py:41-80 | `generate_audio` makes at least one request, one per `split_text` chunk, in order; it renames a single part and merges and removes several |
| TtsProcessor.OptimizeText | src/services/tts_processor.py:39-45 | `' '.join(text.strip().split())` (no contract of its own); pinned by `OptimizeTextWords` and `OptimizeTextShape`, with `OptimizeTextIdempotent` and `OptimizeTextEmptyIff` |
| TtsProcessor.OptimizeTextWords | src/services/tts_processor.py:39-45 | the words of the normalised text are the words of the input, in order |
| TtsProcessor.OptimizeTextShape | src/services/tts_processor.py:39-45 | the normalised text has no outer whitespace, no whitespace but `' '`, and never two whitespace characters in a row |
| TtsProcessor.OptimizeTextIdempotent | src/services/tts_processor.py:39-45 | normalising twice is normalising once |
| TtsProcessor.OptimizeTextEmptyIff | src/services/tts_processor.py:39-45 | the normalised text is empty exactly when the input is whitespace only |
| TtsProcessor.Slice | src/services/tts_processor.py:55 | `texts[lo:hi]` clamps `hi` to the list and is empty when `lo` is past the end or `hi <= lo` |
| TtsProcessor.ProcessTexts | src/services/tts_processor.py:51-58 | a zero `batch_size` raises `range`'s `ValueError`; a negative one gives `[]`; otherwise the result is every batch's output concatenated in batch order |
| TtsProcessor.Batches | src/services/tts_processor.py:54-55 | the slices `texts[i:i + batch_size]` for `i` in `range(0, len(texts), batch_size)` (no contract of its own); pinned by `BatchesShape` and `BatchAt` |
| TtsProcessor.Outputs | src/services/tts_processor.py:56-57 | the batch results extended in batch order (no contract of its own); `OutputsAppend` and `ProcessTextsIdentity` relate it to the input |
| TtsProcessor.BatchesShape | src/services/tts_processor.py:54-55 | the batches concatenate to the input; all hold `batch_size` texts except the last, which holds 1 to `batch_size`; no batches exactly when no texts |
| TtsProcessor.BatchAt | src/services/tts_processor.py:54-55 | batch `j` is `texts[j*k : (j+1)*k]` |
| TtsProcessor.OutputsAppend | src/services/tts_processor.py:57 | the outputs of concatenated batch lists are the concatenated outputs |
| TtsProcessor.ProcessTextsIdentity | src/services/tts_processor.py:51-58 | with a batch processor that returns its batch, `process_texts` returns its input: batching loses, repeats and reorders nothing |
| FileHelper.KeepAllowed | src/utils/file_helper.py:17 | `"".join(c for c in filename if ...)`: never longer than the input; fixed on every input by `KeepAllowedChar` and `KeepAllowedAppend` |
| FileHelper.CleanFilename | src/utils/file_helper.py:15-17 | the allowed characters in order, then `strip()`: never longer than the input and no outer whitespace; fixed on every input by `KeepAllowedChar`, `KeepAllowedAppend` and `StripSlice` |
| FileHelper.KeepAllowedAllowed | src/utils/file_helper.py:17 | every kept character is alphanumeric, `' '`, `'-'` or `'_'` |
| FileHelper.KeepAllowedOfAllowed | src/utils/file_helper.py:17 | a string of allowed characters passes the filter unchanged |
| FileHelper.KeepAllowedChar | src/utils/file_helper.py:17 | a single character is kept when it is alphanumeric, `' '`, `'-'` or `'_'`, and dropped otherwise |
| FileHelper.KeepAllowedAppend | src/utils/file_helper.py:17 | the filter works character by character: filtering `a + b` is filtering `a`, then `b` |
| FileHelper.KeepAllowedEmbeds | src/utils/file_helper.py:17 | the filter keeps an order-preserving selection of the input's characters, and the positions it keeps are exactly those of the allowed characters |
| FileHelper.CleanFilenameAllowed | src/utils/file_helper.py:15-17 | the cleaned name holds only allowed characters and has no outer whitespace |
| FileHelper.CleanFilenameSubsequence | src/utils/file_helper.py:15-17 | the cleaned name is the input with characters removed and the rest in order, so it is never longer |
| FileHelper.CleanFilenameOfClean | src/utils/file_helper.py:15-17 | an allowed name without outer whitespace is already clean |
| FileHelper.CleanFilenameIdempotent | src/utils/file_helper.py:15-17 | cleaning twice is cleaning once |
| ValidationHelper.ValidateFilesExist | src/utils/validation_helper.py:8-12 | passes exactly when every path exists; otherwise raises `FileNotFoundError` |
| ValidationHelper.ValidateFilesExistFirstMissing | src/utils/validation_helper.py:10-12 | the error names the first missing path in list order |
| ValidationHelper.ValidateFilesExistAppend | src/utils/validation_helper.py:10-12 | checking a concatenation checks the first list first, then the second |
| ValidationHelper.ValidateGoogleDocId | src/utils/validation_helper.py:14-17 | fails exactly for a non-string or an empty string, with `ValueError("Invalid Google Doc ID")` |
| ValidationHelper.ValidateTextContent | src/utils/validation_helper.py:19-24 | passes exactly for a string that is not all whitespace; a non-string or `""` gives "Invalid text content"; a whitespace-only string gives "Empty text content" |
| ValidationHelper.RequireDirs | src/utils/validation_helper.py:28-32 | passes exactly when every `os.path.join(base, name)` is a directory; otherwise raises `ValueError` |
| ValidationHelper.RequireDirsFirstMissing | src/utils/validation_helper.py:29-32 | the error names the first missing directory in list order |
| ValidationHelper.RequireDirsMonotone | src/utils/validation_helper.py:26-32 | a directory check that passes still passes when more paths exist |
| ValidationHelper.ValidateProjectStructure | src/utils/validation_helper.py:26-32 | passes exactly when `src`, `assets`, `output` and `logs` under the base are directories; otherwise `ValueError` |
| ValidationHelper.ValidateProjectStructureFirstMissing | src/utils/validation_helper.py:26-32 | the error is "Required directory missing: " and the first missing one of `src`, `assets`, `output`, `logs` |
| ValidationHelper.ValidateOutputStructure | src/utils/validation_helper.py:34-40 | passes exactly when `text`, `audio`, `segments` and `final` under the story directory are directories; otherwise `ValueError` |
| ValidationHelper.ValidateOutputStructureFirstMissing | src/utils/validation_helper.py:34-40 | the error is "Output directory missing: " and the first missing one of `text`, `audio`, `segments`, `final` |
| ValidationHelper.ValidateVideoOutput | src/utils/validation_helper.py:42-47 | passes exactly for an existing non-empty file; a missing path gives `FileNotFoundError`; an empty file gives `ValueError`; existence is checked first |
| GoogleDocsService.RunContents | src/services/google_docs_service.py:33-35 | the values appended for one paragraph (no contract of its own); `RunContentsAppend`, `RunContentsSkipsNoRun` and `RunContentsText` pin it |
| GoogleDocsService.Collect | src/services/google_docs_service.py:30-35 | `text_content` after the outer loop, or the exception raised on the way (no contract of its own); `CollectAppend`, `CollectPrefixErr`, `CollectSkipsNonParagraph` and `CollectWellFormed` pin it |
| GoogleDocsService.JoinFrom | src/services/google_docs_service.py:36 | `"".join` over the collected values from a position on (no contract of its own); `JoinFromAllSome` and `JoinFromFirstNone` pin it |
| GoogleDocsService.ExtractTextSpec | src/services/google_docs_service.py:28-36 | `_extract_text` as a function (no contract of its own); `ExtractText` is proved equal to it and `ExtractTextWellFormed` ties it to the reference `ContentText` |
| GoogleDocsService.ExtractText | src/services/google_docs_service.py:28-36 | the nested loops and the final `"".join` give the text, or the exception Python raises at the same point |
| GoogleDocsService.JoinStrings | src/services/google_docs_service.py:36 | `"".join(items)` concatenates the items, or raises `TypeError` at the first `None` |
| GoogleDocsService.JoinFromAllSome | src/services/google_docs_service.py:36 | with no `None` item the join is the concatenation of the items |
| GoogleDocsService.JoinFromFirstNone | src/services/google_docs_service.py:36 | a `None` item makes the join raise at the first such item's position |
| GoogleDocsService.CollectWellFormed | src/services/google_docs_service.py:30-35 | on a document with every key present, the loops collect no `None` and their concatenation is the paragraphs' text |
| GoogleDocsService.ExtractTextWellFormed | src/services/google_docs_service.py:28-36 | on a document with every key present, the result is every paragraph's runs concatenated in document order |
| GoogleDocsService.ExtractTextEmpty | src/services/google_docs_service.py:28-36 | empty body content gives `""` |
| GoogleDocsService.CollectPrefixErr | src/services/google_docs_service.py:30-35 | an exception while visiting a prefix of the content is the exception of the whole |
| GoogleDocsService.CollectAppend | src/services/google_docs_service.py:30-35 | visiting concatenated content collects the two lists in order; the first part's exception comes first |
| GoogleDocsService.CollectSkipsNonParagraph | src/services/google_docs_service.py:31 | a structural element without a paragraph contributes nothing |
| GoogleDocsService.RunContentsAppend | src/services/google_docs_service.py:33-35 | a paragraph's concatenated elements contribute their values in order |
| GoogleDocsService.RunContentsSkipsNoRun | src/services/google_docs_service.py:34 | a paragraph element without a `textRun` contributes nothing |
| GoogleDocsService.RunContentsText | src/services/google_docs_service.py:33-35 | when every run has content, a paragraph contributes no `None` and its values concatenate to the paragraph's text |
| GoogleDocsService.ContentTextAppend | src/services/google_docs_service.py:30-35 | the text of concatenated well-formed content is the two texts one after the other |

## Left out

- Reading and writing files and creating directories are left out:
  `ensure_dir`, `save_text`, `read_text`, `cleanup_temp_files`, `os.makedirs`
  and `open`. `ProcessText` returns the `(path, content)` pairs it would save,
  and `GenerateAudio` takes the text it would read.
- The OpenAI speech call, `stream_to_file`, `merge_audio_files` (pydub) and
  `os.rename`/`os.remove` are left out: they are I/O. `GenerateAudio`
  returns the requests and the final rename or merge-and-remove as data, so
  it does not model an `OSError` swallowed by the removal loop.
- The `tenacity` retry around `generate_audio` is left out, with its wait
  times: retrying repeats the same plan, and the clock is not modelled.
- TtsProcessor.ProcessTexts: `process_batch` (a thread pool collecting in
  completion order, dropping failed texts), `text_to_speech` and
  `get_cache_path` (MD5 with `lru_cache`) are left out. `process_batch` is
  a function parameter, so its concurrency and ordering are not modelled.
  `_process_tts` is called but not defined in the source.
- `GoogleDocsService.__init__` and `get_document` are left out: they handle
  credentials and HTTP.
- GoogleDocsService.ExtractText: a JSON `null` value is treated like an
  absent key. Python raises `AttributeError` for `"paragraph": null` or
  `"textRun": null` (the `.get` at lines 33 and 35 of
  `src/services/google_docs_service.py`), where the model skips the element.
- PyStr.Split: an empty separator, where Python raises
  `ValueError("empty separator")`, is excluded by a precondition. The code
  only splits on the constants `"\n\n"` and `'.'`.
- PyStr.Decimal: `str(n)` for a negative `n` (with its `'-'` sign) is not
  modelled; the code only formats chunk and part numbers, which are
  non-negative.
- PyStr.ZFill: padding after a leading `'+'` or `'-'` is not modelled, so
  the model would give `"0-5"` where Python gives `"-05"` for
  `"-5".zfill(3)`. The code only pads `str(i)` for chunk numbers `i`
  counted from 1 by `enumerate(chunks, 1)`.
- `str.isalnum` consults the Unicode database, so it is a parameter of
  `CleanFilename`.
- The filesystem is a map keyed by path strings as written, with no path
  normalisation, symbolic links or permissions. `os.path.exists` is
  membership and `os.path.getsize` is the stored size.
- `ValidateGoogleDocId` and `ValidateTextContent` see a non-string argument
  as a single `NotStr` value. Python raises the same error for every falsy
  or non-`str` value.
- Logging, `performance_monitor`, `video_processor.py` and `main.py` are
  not part of this model. `TTSConfig`'s `MAX_CHARS` and `AUDIO_FORMAT` are
  constants here; `VOICE` and `MODEL` only reach the speech call.
