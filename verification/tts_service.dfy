/** `TTSService` (src/services/tts_service.py): cuts a text into chunks the
    speech API accepts, at the periods of the text, and plans the per-chunk
    temporary audio files of `generate_audio` and how they are combined. */
module TtsService {
  import opened PyStr
  import opened Greedy

  /** `TTSConfig.MAX_CHARS` */
  const MaxChars: int := 4000

  /** `TTSConfig.AUDIO_FORMAT` */
  const AudioFormat: string := "mp3"

  // ---------------------------------------------------------------------------
  // split_text

  /** `text.split('.')` */
  function Sentences(text: string): (ss: seq<string>)
    ensures |ss| >= 1
  {
    Split(text, ".")
  }

  /** The pieces, each followed by `'.'`, one after the other: what the
      repeated `current_chunk += sentence + '.'` builds. */
  function Dotted(g: seq<string>): (s: string)
    ensures |s| == SumLen(g) + |g|
  {
    if g == [] then "" else g[0] + "." + Dotted(g[1..])
  }

  lemma {:induction false} DottedAppend(a: seq<string>, b: seq<string>)
    ensures Dotted(a + b) == Dotted(a) + Dotted(b)
  {
    if a == [] {
      assert a + b == b;
    } else {
      assert (a + b)[1..] == a[1..] + b;
      DottedAppend(a[1..], b);
    }
  }

  /** The dotted pieces are the pieces joined by `'.'`, plus a final `'.'`. */
  lemma {:induction false} DottedJoin(g: seq<string>)
    requires g != []
    ensures Dotted(g) == Join(g, ".") + "."
  {
    if |g| > 1 { DottedJoin(g[1..]); }
  }

  /** The test of `split_text`: a piece joins the current chunk when
      `len(current_chunk) + len(sentence) < MAX_CHARS` (strictly). */
  function SentenceFits(maxChars: int): (seq<string>, string) -> bool
  {
    (cur: seq<string>, s: string) => |Dotted(cur)| + |s| < maxChars
  }

  /** The groups of pieces behind the chunks of `split_text`. */
  function SentenceGroups(text: string, maxChars: int): (gs: seq<seq<string>>)
    ensures |gs| <= |Sentences(text)|
  {
    Pack(Sentences(text), [], SentenceFits(maxChars))
  }

  /** `current_chunk` once a group is closed: its pieces, each followed by `'.'`. */
  function ChunkText(g: seq<string>): string
  {
    Dotted(g)
  }

  /** The chunk text of every group. */
  function DottedEach(gs: seq<seq<string>>): (cs: seq<string>)
    ensures |cs| == |gs|
  {
    MapEach(ChunkText, gs)
  }

  lemma DottedSnoc(g: seq<string>, s: string)
    ensures Dotted(g + [s]) == Dotted(g) + s + "."
  {
    DottedAppend(g, [s]);
    assert Dotted([s]) == s + ".";
  }

  /** The loop step of `split_text` when the sentence fits the current chunk. */
  lemma ExtendStep(sentences: seq<string>, i: int, current: seq<string>, maxChars: int)
    requires 0 <= i < |sentences| && |Dotted(current)| + |sentences[i]| < maxChars
    ensures Pack(sentences[i..], current, SentenceFits(maxChars))
         == Pack(sentences[i + 1..], current + [sentences[i]], SentenceFits(maxChars))
    ensures Dotted(current + [sentences[i]]) == Dotted(current) + sentences[i] + "."
  {
    PackStep(sentences, i, current, SentenceFits(maxChars));
    DottedSnoc(current, sentences[i]);
  }

  /** `split_text(text)` with `MAX_CHARS == maxChars`. */
  method SplitText(text: string, maxChars: int) returns (chunks: seq<string>)
    ensures chunks == DottedEach(SentenceGroups(text, maxChars))
  {
    chunks := [];
    var currentChunk := "";
    ghost var current: seq<string> := [];
    ghost var groups: seq<seq<string>> := [];
    var sentences := Split(text, ".");
    assert sentences[0..] == sentences;
    assert groups + Pack(sentences[0..], current, SentenceFits(maxChars)) == SentenceGroups(text, maxChars) by {
      assert groups + Pack(sentences, [], SentenceFits(maxChars)) == Pack(sentences, [], SentenceFits(maxChars));
    }
    for i := 0 to |sentences|
      invariant currentChunk == Dotted(current)
      invariant chunks == DottedEach(groups)
      invariant groups + Pack(sentences[i..], current, SentenceFits(maxChars)) == SentenceGroups(text, maxChars)
    {
      var sentence := sentences[i];
      if |currentChunk| + |sentence| < maxChars {
        ExtendStep(sentences, i, current, maxChars);
        currentChunk := currentChunk + sentence + ".";
        current := current + [sentence];
      } else {
        CloseStep(groups, sentences, i, current, SentenceFits(maxChars));
        CloseMapped(ChunkText, groups, current);
        DottedSnoc([], sentence);
        assert [] + [sentence] == [sentence];
        if currentChunk != "" {
          chunks := chunks + [currentChunk];
        }
        groups := groups + Closed(current);
        currentChunk := sentence + ".";
        current := [sentence];
      }
    }
    CloseMapped(ChunkText, groups, current);
    if currentChunk != "" {
      chunks := chunks + [currentChunk];
    }
    groups := groups + Closed(current);
  }

  lemma {:induction false} JoinDottedEach(gs: seq<seq<string>>)
    ensures Join(DottedEach(gs), "") == Dotted(Flatten(gs))
  {
    if gs != [] {
      JoinDottedEach(gs[1..]);
      MapEachCons(ChunkText, gs);
      DottedAppend(gs[0], Flatten(gs[1..]));
      if |gs| > 1 {
        JoinCons(Dotted(gs[0]), DottedEach(gs[1..]), "");
      } else {
        assert Flatten(gs[1..]) == [];
        assert gs[0] + [] == gs[0];
      }
    }
  }

  /** Round trip: the chunks, concatenated, are the text with one `'.'` added. */
  lemma SplitTextConcat(text: string, maxChars: int)
    ensures Join(DottedEach(SentenceGroups(text, maxChars)), "") == text + "."
  {
    PackLaws(Sentences(text), SentenceFits(maxChars));
    JoinDottedEach(SentenceGroups(text, maxChars));
    DottedJoin(Sentences(text));
    JoinSplit(text, ".");
  }

  /** Each chunk is made of whole, consecutive pieces of `text.split('.')`: the
      groups behind the chunks partition the pieces; there is always at least
      one chunk; every chunk is non-empty and ends with `'.'`. */
  lemma SplitTextPieces(text: string, maxChars: int)
    ensures var gs := SentenceGroups(text, maxChars);
      && Flatten(gs) == Sentences(text)
      && |gs| >= 1
      && forall k :: 0 <= k < |gs| ==>
           gs[k] != [] && Dotted(gs[k]) != [] && Dotted(gs[k])[|Dotted(gs[k])| - 1] == '.'
  {
    var gs := SentenceGroups(text, maxChars);
    PackLaws(Sentences(text), SentenceFits(maxChars));
    forall k | 0 <= k < |gs| ensures Dotted(gs[k]) != [] && Dotted(gs[k])[|Dotted(gs[k])| - 1] == '.' {
      DottedEndsWithDot(gs[k]);
    }
  }

  lemma DottedEndsWithDot(g: seq<string>)
    requires g != []
    ensures Dotted(g) != [] && Dotted(g)[|Dotted(g)| - 1] == '.'
  {
    DottedJoin(g);
  }

  /** Every chunk is at most `maxChars` long, unless it is a single piece that
      is at least `maxChars` long on its own. */
  lemma SplitTextWithinLimit(text: string, maxChars: int)
    ensures var gs := SentenceGroups(text, maxChars);
      forall k :: 0 <= k < |gs| ==>
        |Dotted(gs[k])| <= maxChars || (|gs[k]| == 1 && |gs[k][0]| >= maxChars)
  {
    var gs := SentenceGroups(text, maxChars);
    PackLaws(Sentences(text), SentenceFits(maxChars));
    forall k | 0 <= k < |gs| ensures |Dotted(gs[k])| <= maxChars || (|gs[k]| == 1 && |gs[k][0]| >= maxChars) {
      GroupWithinLimit(gs[k], maxChars);
    }
  }

  /** One built group: its last piece was admitted by the strict test. */
  lemma GroupWithinLimit(g: seq<string>, maxChars: int)
    requires g != [] && Built(g, SentenceFits(maxChars))
    ensures |Dotted(g)| <= maxChars || (|g| == 1 && |g[0]| >= maxChars)
  {
    if |g| >= 2 {
      var j := |g| - 1;
      assert SentenceFits(maxChars)(g[..j], g[j]);
      DottedAppend(g[..j], [g[j]]);
      assert g[..j] + [g[j]] == g;
    } else {
      assert g == [g[0]];
    }
  }

  /** A piece at least `maxChars` long is a chunk of its own. */
  lemma OversizedSentenceAlone(text: string, maxChars: int, i: nat)
    requires i < |Sentences(text)| && |Sentences(text)[i]| >= maxChars
    ensures [Sentences(text)[i]] in SentenceGroups(text, maxChars)
  {
    var gs := SentenceGroups(text, maxChars);
    var fits := SentenceFits(maxChars);
    PackLaws(Sentences(text), fits);
    FlattenMember(gs, i);
    var k, j :| 0 <= k < |gs| && 0 <= j < |gs[k]| && gs[k][j] == Sentences(text)[i];
    var g := gs[k];
    assert !fits(g[..j], g[j]);
    assert j == 0;
    if |g| > 1 {
      assert |Dotted([g[0]])| == |g[0]| + 1;
      FirstOfGroup(g, fits);
      assert false;
    }
    assert g == [Sentences(text)[i]];
    assert gs[k] == [Sentences(text)[i]];
  }

  /** Chunk `k` is followed by a chunk whose first piece would have taken it
      to `maxChars` or beyond. */
  predicate ClosedWhenFull(gs: seq<seq<string>>, k: int, maxChars: int)
    requires 0 <= k < |gs| - 1
  {
    gs[k + 1] != [] && |Dotted(gs[k])| + |gs[k + 1][0]| >= maxChars
  }

  /** A new chunk starts only when `len(current_chunk) + len(sentence) >= MAX_CHARS`. */
  lemma SplitTextGreedy(text: string, maxChars: int)
    ensures var gs := SentenceGroups(text, maxChars);
      forall k :: 0 <= k < |gs| - 1 ==> ClosedWhenFull(gs, k, maxChars)
  {
    var gs := SentenceGroups(text, maxChars);
    PackLaws(Sentences(text), SentenceFits(maxChars));
    forall k | 0 <= k < |gs| - 1 ensures ClosedWhenFull(gs, k, maxChars) {
      assert ClosedBefore(gs, k, SentenceFits(maxChars));
    }
  }

  /** The empty text gives the single chunk `"."`. */
  lemma SplitTextEmpty(maxChars: int)
    ensures DottedEach(SentenceGroups("", maxChars)) == ["."]
  {
    var fits := SentenceFits(maxChars);
    assert Sentences("") == [""];
    assert [""][1..] == [];
    if fits([], "") {
      assert [] + [""] == [""];
      assert Pack([""], [], fits) == Pack([], [""], fits);
    } else {
      assert Pack([""], [], fits) == Closed([]) + Pack([], [""], fits);
    }
    assert SentenceGroups("", maxChars) == [[""]];
    assert Dotted([""]) == ".";
    MapEachCons(ChunkText, [[""]]);
  }

  // ---------------------------------------------------------------------------
  // generate_audio (the plan of its file operations)

  /** `f"{output_file}.part{i}.{AUDIO_FORMAT}"` */
  function TempFileName(outputFile: string, i: nat): string
  {
    outputFile + ".part" + Decimal(i) + "." + AudioFormat
  }

  lemma TempFileNamesDistinct(outputFile: string, i: nat, j: nat)
    requires i != j
    ensures TempFileName(outputFile, i) != TempFileName(outputFile, j)
  {
    if TempFileName(outputFile, i) == TempFileName(outputFile, j) {
      assert TempFileName(outputFile, i) == outputFile + ".part" + Decimal(i) + ("." + AudioFormat);
      assert TempFileName(outputFile, j) == outputFile + ".part" + Decimal(j) + ("." + AudioFormat);
      MiddleEqual(outputFile + ".part", Decimal(i), Decimal(j), "." + AudioFormat);
      DecimalInjective(i, j);
    }
  }

  /** One call to the speech API: the chunk sent and the file its audio is
      streamed to. */
  datatype SpeechRequest = SpeechRequest(input: string, streamTo: string)

  /** How the per-chunk files become the output file. */
  datatype Finish =
    | Rename(source: string, target: string)                 // one chunk: `os.rename`
    | MergeAndRemove(parts: seq<string>, target: string)    // several: merge in order, then remove each

  /** The temporary files of chunks `0 .. n - 1`, in order. */
  function TempFiles(outputFile: string, n: nat): seq<string>
  {
    seq(n, k requires 0 <= k < n => TempFileName(outputFile, k))
  }

  /** The loop of `generate_audio` over `enumerate(chunks)` and the choice
      after it: one request per chunk, in chunk order; a single part is
      renamed, any other number of parts is merged in order and removed. */
  method RequestAudio(chunks: seq<string>, outputFile: string) returns (requests: seq<SpeechRequest>, finish: Finish)
    ensures |requests| == |chunks|
    ensures forall k :: 0 <= k < |chunks| ==> requests[k] == SpeechRequest(chunks[k], TempFileName(outputFile, k))
    ensures |chunks| == 1 ==> finish == Rename(TempFileName(outputFile, 0), outputFile)
    ensures |chunks| != 1 ==> finish == MergeAndRemove(TempFiles(outputFile, |chunks|), outputFile)
  {
    var tempFiles: seq<string> := [];
    requests := [];
    for i := 0 to |chunks|
      invariant tempFiles == TempFiles(outputFile, i)
      invariant |requests| == i
      invariant forall k :: 0 <= k < i ==> requests[k] == SpeechRequest(chunks[k], TempFileName(outputFile, k))
    {
      var tempFile := TempFileName(outputFile, i);
      requests := requests + [SpeechRequest(chunks[i], tempFile)];
      tempFiles := tempFiles + [tempFile];
    }
    if |tempFiles| == 1 {
      finish := Rename(tempFiles[0], outputFile);
    } else {
      finish := MergeAndRemove(tempFiles, outputFile);
    }
  }

  /** There is always at least one chunk. */
  lemma SplitTextNonEmpty(text: string, maxChars: int)
    ensures |DottedEach(SentenceGroups(text, maxChars))| >= 1
  {
    PackLaws(Sentences(text), SentenceFits(maxChars));
  }

  /** `generate_audio(text_file, output_file)` for a text file holding `text`:
      the speech requests it issues, in order, and how it finishes. With at
      least one chunk always present, the merge branch only ever sees two or
      more parts, each file name distinct (`TempFileNamesDistinct`). */
  method GenerateAudio(text: string, outputFile: string) returns (requests: seq<SpeechRequest>, finish: Finish)
    ensures |requests| == |DottedEach(SentenceGroups(text, MaxChars))| >= 1
    ensures forall k :: 0 <= k < |requests| ==>
      requests[k] == SpeechRequest(DottedEach(SentenceGroups(text, MaxChars))[k], TempFileName(outputFile, k))
    ensures |requests| == 1 ==> finish == Rename(TempFileName(outputFile, 0), outputFile)
    ensures |requests| > 1 ==> finish == MergeAndRemove(TempFiles(outputFile, |requests|), outputFile)
  {
    var chunks := SplitText(text, MaxChars);
    SplitTextNonEmpty(text, MaxChars);
    requests, finish := RequestAudio(chunks, outputFile);
  }
}
