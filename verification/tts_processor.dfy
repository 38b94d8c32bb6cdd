/** `TTSProcessor` (src/services/tts_processor.py): whitespace normalisation of
    a text before speech synthesis, and the slicing of a list of texts into
    fixed-size batches handed one after the other to `process_batch`. */
module TtsProcessor {
  import opened Wrappers
  import opened PyStr
  import opened Greedy

  // ---------------------------------------------------------------------------
  // optimize_text

  /** `' '.join(text.strip().split())` */
  function OptimizeText(text: string): string
  {
    Join(Words(Strip(text)), " ")
  }

  /** The words of the result are the words of the input, in order. */
  lemma OptimizeTextWords(text: string)
    ensures Words(OptimizeText(text)) == Words(text)
  {
    WordsOfStrip(text);
    WordsOfJoin(Words(Strip(text)));
  }

  /** The result has no leading or trailing whitespace, its only whitespace
      character is `' '`, and no two whitespace characters are adjacent. */
  lemma OptimizeTextShape(text: string)
    ensures var r := OptimizeText(text);
      NoOuterSpace(r)
      && (forall i :: 0 <= i < |r| && IsSpace(r[i]) ==> r[i] == ' ')
      && (forall i :: 0 <= i < |r| - 1 ==> !IsSpace(r[i]) || !IsSpace(r[i + 1]))
  {
    JoinWordsShape(Words(Strip(text)));
  }

  /** Normalising twice is normalising once. */
  lemma OptimizeTextIdempotent(text: string)
    ensures OptimizeText(OptimizeText(text)) == OptimizeText(text)
  {
    var r := OptimizeText(text);
    OptimizeTextShape(text);
    StripOfTrimmed(r);
    WordsOfJoin(Words(Strip(text)));
  }

  /** The result is empty exactly when the input is whitespace only. */
  lemma OptimizeTextEmptyIff(text: string)
    ensures OptimizeText(text) == [] <==> AllSpace(text)
  {
    StripEmptyIff(text);
    var ws := Words(Strip(text));
    if ws != [] {
      assert |Join(ws, " ")| >= |ws[0]| > 0 by { JoinHeadPrefix(ws, " "); }
    }
  }

  // ---------------------------------------------------------------------------
  // process_texts

  /** `texts[lo:hi]` for `0 <= lo`: the bounds are clamped to the list. */
  function Slice<T>(s: seq<T>, lo: nat, hi: nat): (r: seq<T>)
    ensures lo <= hi && lo <= |s| ==> r == s[lo..if hi < |s| then hi else |s|]
    ensures |s| < lo || hi <= lo ==> r == []
  {
    var h := if hi < |s| then hi else |s|;
    if lo <= h then s[lo..h] else []
  }

  /** The batches `texts[i:i + k]` for `i` in `range(start, len(texts), k)`. */
  function BatchesFrom(texts: seq<string>, start: nat, k: nat): seq<seq<string>>
    requires k > 0
    decreases |texts| - start
  {
    if start >= |texts| then []
    else [Slice(texts, start, start + k)] + BatchesFrom(texts, start + k, k)
  }

  function Batches(texts: seq<string>, k: nat): seq<seq<string>>
    requires k > 0
  {
    BatchesFrom(texts, 0, k)
  }

  /** The results of the batches, concatenated in batch order. */
  function Outputs(processBatch: seq<string> -> seq<string>, batches: seq<seq<string>>): seq<string>
  {
    if batches == [] then [] else processBatch(batches[0]) + Outputs(processBatch, batches[1..])
  }

  /** The `ValueError` that `range` raises for a zero step. */
  const ZeroStep: PyError := ValueError("range() arg 3 must not be zero")

  /** `process_texts(texts)` with `self.batch_size == batchSize` and
      `self.process_batch` given as `processBatch`. A zero step makes `range`
      raise; a negative one makes the loop empty. */
  method ProcessTexts(texts: seq<string>, batchSize: int, processBatch: seq<string> -> seq<string>)
    returns (r: Result<seq<string>, PyError>)
    ensures batchSize == 0 ==> r == Err(ZeroStep)
    ensures batchSize < 0 ==> r == Ok([])
    ensures batchSize > 0 ==> r == Ok(Outputs(processBatch, Batches(texts, batchSize)))
  {
    if batchSize == 0 {
      return Err(ZeroStep);
    }
    var results: seq<string> := [];
    if batchSize > 0 {
      var i := 0;
      while i < |texts|
        invariant 0 <= i
        invariant results + Outputs(processBatch, BatchesFrom(texts, i, batchSize))
               == Outputs(processBatch, Batches(texts, batchSize))
        decreases |texts| - i
      {
        var batch := Slice(texts, i, i + batchSize);
        var batchResults := processBatch(batch);
        ghost var rest := BatchesFrom(texts, i + batchSize, batchSize);
        assert BatchesFrom(texts, i, batchSize) == [batch] + rest;
        assert ([batch] + rest)[1..] == rest;
        results := results + batchResults;
        i := i + batchSize;
      }
      assert BatchesFrom(texts, i, batchSize) == [];
      assert results + [] == results;
    }
    return Ok(results);
  }

  lemma {:induction false} BatchesFromPartition(texts: seq<string>, start: nat, k: nat)
    requires k > 0
    ensures Flatten(BatchesFrom(texts, start, k)) == Slice(texts, start, |texts|)
    decreases |texts| - start
  {
    if start < |texts| {
      var bs := BatchesFrom(texts, start, k);
      BatchesFromPartition(texts, start + k, k);
      assert bs[1..] == BatchesFrom(texts, start + k, k);
      if start + k < |texts| {
        assert texts[start..] == texts[start..start + k] + texts[start + k..];
      } else {
        assert Flatten(bs[1..]) == [];
        assert Slice(texts, start, start + k) + [] == texts[start..];
      }
    }
  }

  lemma {:induction false} BatchesFromSizes(texts: seq<string>, start: nat, k: nat)
    requires k > 0
    ensures var bs := BatchesFrom(texts, start, k);
      (forall j :: 0 <= j < |bs| ==> 1 <= |bs[j]| <= k)
      && (forall j :: 0 <= j < |bs| - 1 ==> |bs[j]| == k)
    decreases |texts| - start
  {
    if start < |texts| {
      var bs := BatchesFrom(texts, start, k);
      BatchesFromSizes(texts, start + k, k);
      assert bs[1..] == BatchesFrom(texts, start + k, k);
      if |bs| > 1 {
        assert start + k < |texts|;
      }
      forall j | 0 <= j < |bs| ensures 1 <= |bs[j]| <= k && (j < |bs| - 1 ==> |bs[j]| == k) {
        if j > 0 { assert bs[j] == bs[1..][j - 1]; } else { assert bs[0] == Slice(texts, start, start + k); }
      }
    }
  }

  /** The batches cut the list into consecutive slices, in order: all of
      exactly `k` texts except the last, which holds between 1 and `k`; there
      are no batches exactly when there are no texts. */
  lemma BatchesShape(texts: seq<string>, k: nat)
    requires k > 0
    ensures var bs := Batches(texts, k);
      Flatten(bs) == texts
      && (bs == [] <==> texts == [])
      && (forall j :: 0 <= j < |bs| ==> 1 <= |bs[j]| <= k)
      && (forall j :: 0 <= j < |bs| - 1 ==> |bs[j]| == k)
  {
    BatchesFromPartition(texts, 0, k);
    BatchesFromSizes(texts, 0, k);
    assert texts[0..] == texts;
  }

  lemma BatchesFromCons(texts: seq<string>, start: nat, k: nat)
    requires k > 0 && start < |texts|
    ensures BatchesFrom(texts, start, k) == [Slice(texts, start, start + k)] + BatchesFrom(texts, start + k, k)
  {
  }

  /** `start + j * k`, counted up one stride at a time. */
  function Offset(start: nat, k: nat, j: nat): nat
  {
    if j == 0 then start else Offset(start, k, j - 1) + k
  }

  lemma {:induction false} OffsetValue(start: nat, k: nat, j: nat)
    ensures Offset(start, k, j) == start + j * k
  {
    if j > 0 { OffsetValue(start, k, j - 1); }
  }

  lemma {:induction false} BatchAtOffset(texts: seq<string>, start: nat, k: nat, j: nat)
    requires k > 0 && j < |BatchesFrom(texts, start, k)|
    ensures BatchesFrom(texts, start, k)[j] == Slice(texts, Offset(start, k, j), Offset(start, k, j) + k)
    decreases j
  {
    BatchesFromCons(texts, start, k);
    if j > 0 {
      BatchAtOffset(texts, start + k, k, j - 1);
      OffsetShift(start, k, j);
    }
  }

  lemma {:induction false} OffsetShift(start: nat, k: nat, j: nat)
    requires j > 0
    ensures Offset(start + k, k, j - 1) == Offset(start, k, j)
    decreases j
  {
    if j > 1 { OffsetShift(start, k, j - 1); }
  }

  /** Batch `j` is the slice starting at `j * k`. */
  lemma BatchAt(texts: seq<string>, start: nat, k: nat, j: nat)
    requires k > 0 && j < |BatchesFrom(texts, start, k)|
    ensures BatchesFrom(texts, start, k)[j] == Slice(texts, start + j * k, start + (j + 1) * k)
  {
    BatchAtOffset(texts, start, k, j);
    OffsetValue(start, k, j);
    assert start + j * k + k == start + (j + 1) * k;
  }

  lemma {:induction false} OutputsAppend(f: seq<string> -> seq<string>, a: seq<seq<string>>, b: seq<seq<string>>)
    ensures Outputs(f, a + b) == Outputs(f, a) + Outputs(f, b)
  {
    if a == [] {
      assert a + b == b;
    } else {
      assert (a + b)[1..] == a[1..] + b;
      OutputsAppend(f, a[1..], b);
    }
  }

  /** With a batch processor that returns its batch unchanged, `process_texts`
      returns its input: no text is lost, repeated or reordered by batching. */
  lemma {:induction false} OutputsIdentity(batches: seq<seq<string>>)
    ensures Outputs(b => b, batches) == Flatten(batches)
  {
    if batches != [] {
      OutputsIdentity(batches[1..]);
    }
  }

  lemma ProcessTextsIdentity(texts: seq<string>, k: nat)
    requires k > 0
    ensures Outputs(b => b, Batches(texts, k)) == texts
  {
    OutputsIdentity(Batches(texts, k));
    BatchesShape(texts, k);
  }
}
