/** `TextProcessor` (src/services/text_processor.py): splits a story into
    paragraphs, packs the paragraphs greedily into chunks of at most
    `max_chars` paragraph characters, and names one `partNNN.txt` file per
    chunk. */
module TextProcessor {
  import opened PyStr
  import opened PyPath
  import opened Greedy

  /** `self.max_chars`, fixed by the constructor. */
  const MaxChars: int := 4000

  /** The paragraph separator, used both to split and to join. */
  const ParagraphSep: string := "\n\n"

  // ---------------------------------------------------------------------------
  // _split_into_paragraphs

  /** What `_split_into_paragraphs` promises of each paragraph. */
  predicate IsParagraph(p: string)
  {
    p != [] && NoOuterSpace(p) && !Contains(p, ParagraphSep)
  }

  /** What one piece contributes to `[p.strip() for p in pieces if p.strip()]`. */
  function Kept(p: string): seq<string>
  {
    if Strip(p) == [] then [] else [Strip(p)]
  }

  /** `[p.strip() for p in pieces if p.strip()]` */
  function KeepStripped(pieces: seq<string>): seq<string>
  {
    FlatMap(Kept, pieces)
  }

  /** `_split_into_paragraphs(text)` */
  function SplitIntoParagraphs(text: string): (ps: seq<string>)
    ensures |ps| <= |Split(text, ParagraphSep)|
  {
    KeepStrippedLength(Split(text, ParagraphSep));
    KeepStripped(Split(text, ParagraphSep))
  }

  /** Each piece gives at most one paragraph. */
  lemma {:induction false} KeepStrippedLength(pieces: seq<string>)
    ensures |KeepStripped(pieces)| <= |pieces|
  {
    if pieces != [] {
      KeepStrippedLength(pieces[1..]);
    }
  }

  lemma {:induction false} KeepStrippedParagraphs(pieces: seq<string>)
    requires forall k :: 0 <= k < |pieces| ==> !Contains(pieces[k], ParagraphSep)
    ensures forall k :: 0 <= k < |KeepStripped(pieces)| ==> IsParagraph(KeepStripped(pieces)[k])
  {
    if pieces != [] {
      var head := Strip(pieces[0]);
      StripNotContains(pieces[0], ParagraphSep);
      assert forall k :: 0 <= k < |pieces[1..]| ==> pieces[1..][k] == pieces[k + 1];
      KeepStrippedParagraphs(pieces[1..]);
      var ks, rest := KeepStripped(pieces), KeepStripped(pieces[1..]);
      if head == [] {
        assert ks == rest;
      } else {
        assert ks == [head] + rest;
        forall k | 0 <= k < |ks| ensures IsParagraph(ks[k]) {
          if k > 0 { assert ks[k] == rest[k - 1]; }
        }
      }
    }
  }

  /** Every paragraph is non-empty, has no outer whitespace and holds no
      paragraph separator. */
  lemma ParagraphsWellFormed(text: string)
    ensures forall k :: 0 <= k < |SplitIntoParagraphs(text)| ==> IsParagraph(SplitIntoParagraphs(text)[k])
  {
    SplitPiecesFree(text, ParagraphSep);
    KeepStrippedParagraphs(Split(text, ParagraphSep));
  }

  /** Text order is kept: a block free of separators that is followed by a
      separator yields its own paragraph (if not blank) before all those of
      the rest of the text. */
  lemma ParagraphsInOrder(block: string, rest: string)
    requires Separable(block, ParagraphSep)
    ensures SplitIntoParagraphs(block + ParagraphSep + rest)
         == KeepStripped([block]) + SplitIntoParagraphs(rest)
  {
    SplitAfter(block, rest, ParagraphSep);
    FlatMapAppend(Kept, [block], Split(rest, ParagraphSep));
  }

  /** A paragraph followed by `"\n"` still holds no separator, since it does
      not end with a newline. */
  lemma ParagraphSeparable(p: string)
    requires IsParagraph(p)
    ensures Separable(p, ParagraphSep)
  {
    var u := p + ParagraphSep[..1];
    forall i | 0 <= i <= |u| ensures !OccursAt(u, ParagraphSep, i) {
      if i + 2 <= |p| {
        assert u[i..i + 2] == p[i..i + 2];
        assert !OccursAt(p, ParagraphSep, i);
      } else if i + 2 == |u| {
        assert u[i..i + 2][0] == p[|p| - 1];
      }
    }
  }

  lemma KeptParagraph(p: string)
    requires IsParagraph(p)
    ensures Kept(p) == [p]
  {
    StripOfTrimmed(p);
  }

  lemma KeepStrippedOfParagraphs(ps: seq<string>)
    requires forall k :: 0 <= k < |ps| ==> IsParagraph(ps[k])
    ensures KeepStripped(ps) == ps
  {
    forall k | 0 <= k < |ps| ensures Kept(ps[k]) == [ps[k]] { KeptParagraph(ps[k]); }
    FlatMapIdentity(Kept, ps);
  }

  lemma ParagraphsSeparable(ps: seq<string>)
    requires forall k :: 0 <= k < |ps| ==> IsParagraph(ps[k])
    ensures forall k :: 0 <= k < |ps| ==> Separable(ps[k], ParagraphSep)
  {
    forall k | 0 <= k < |ps| ensures Separable(ps[k], ParagraphSep) { ParagraphSeparable(ps[k]); }
  }

  /** An empty text has no paragraphs. */
  lemma NoParagraphs()
    ensures SplitIntoParagraphs("") == []
  {
    assert Split("", ParagraphSep) == [""];
    assert Kept("") == [] by { assert Strip("") == []; }
    assert FlatMap(Kept, [""]) == Kept("") + FlatMap(Kept, []);
  }

  /** Round trip: paragraphs joined with the separator split back into the
      same paragraphs. */
  lemma ParagraphsRoundTrip(ps: seq<string>)
    requires forall k :: 0 <= k < |ps| ==> IsParagraph(ps[k])
    ensures SplitIntoParagraphs(Join(ps, ParagraphSep)) == ps
  {
    if ps == [] {
      assert Join(ps, ParagraphSep) == "";
      NoParagraphs();
    } else {
      ParagraphsSeparable(ps);
      SplitJoin(ps, ParagraphSep);
      KeepStrippedOfParagraphs(ps);
    }
  }

  // ---------------------------------------------------------------------------
  // _create_chunks

  /** The test of `_create_chunks`: a paragraph joins the open chunk unless
      `current_length + para_length > self.max_chars`. Only paragraph lengths
      are counted, not the separators the chunk is joined with. */
  function ParagraphFits(maxChars: int): (seq<string>, string) -> bool
  {
    (cur: seq<string>, p: string) => SumLen(cur) + |p| <= maxChars
  }

  /** The paragraph groups behind the chunks of `_create_chunks`. */
  function ChunkGroups(paragraphs: seq<string>, maxChars: int): (gs: seq<seq<string>>)
    ensures |gs| <= |paragraphs|
  {
    Pack(paragraphs, [], ParagraphFits(maxChars))
  }

  /** `"\n\n".join(group)`: the text of one chunk. */
  function JoinChunk(g: seq<string>): string
  {
    Join(g, ParagraphSep)
  }

  /** `"\n\n".join(group)` for every group. */
  function JoinEach(gs: seq<seq<string>>): (cs: seq<string>)
    ensures |cs| == |gs|
  {
    MapEach(JoinChunk, gs)
  }

  /** The loop step of `_create_chunks` when the paragraph fits the open chunk. */
  lemma ExtendStep(paragraphs: seq<string>, i: int, current: seq<string>, maxChars: int)
    requires 0 <= i < |paragraphs| && SumLen(current) + |paragraphs[i]| <= maxChars
    ensures Pack(paragraphs[i..], current, ParagraphFits(maxChars))
         == Pack(paragraphs[i + 1..], current + [paragraphs[i]], ParagraphFits(maxChars))
    ensures SumLen(current + [paragraphs[i]]) == SumLen(current) + |paragraphs[i]|
  {
    PackStep(paragraphs, i, current, ParagraphFits(maxChars));
    SumLenAppend(current, paragraphs[i]);
  }

  /** `_create_chunks(paragraphs)` with `self.max_chars == maxChars`. */
  method CreateChunks(paragraphs: seq<string>, maxChars: int) returns (chunks: seq<string>)
    ensures chunks == JoinEach(ChunkGroups(paragraphs, maxChars))
  {
    chunks := [];
    var current: seq<string> := [];
    var currentLength := 0;
    ghost var groups: seq<seq<string>> := [];
    assert paragraphs[0..] == paragraphs;
    assert groups + Pack(paragraphs[0..], current, ParagraphFits(maxChars)) == ChunkGroups(paragraphs, maxChars) by {
      assert groups + Pack(paragraphs, [], ParagraphFits(maxChars)) == Pack(paragraphs, [], ParagraphFits(maxChars));
    }
    for i := 0 to |paragraphs|
      invariant currentLength == SumLen(current)
      invariant chunks == JoinEach(groups)
      invariant groups + Pack(paragraphs[i..], current, ParagraphFits(maxChars)) == ChunkGroups(paragraphs, maxChars)
    {
      var para := paragraphs[i];
      var paraLength := |para|;
      if currentLength + paraLength > maxChars {
        CloseStep(groups, paragraphs, i, current, ParagraphFits(maxChars));
        CloseMapped(JoinChunk, groups, current);
        SumLenAppend([], para);
        assert [] + [para] == [para];
        if current != [] {
          chunks := chunks + [Join(current, ParagraphSep)];
        }
        groups := groups + Closed(current);
        current := [para];
        currentLength := paraLength;
      } else {
        ExtendStep(paragraphs, i, current, maxChars);
        current := current + [para];
        currentLength := currentLength + paraLength;
      }
    }
    CloseMapped(JoinChunk, groups, current);
    if current != [] {
      chunks := chunks + [Join(current, ParagraphSep)];
    }
    groups := groups + Closed(current);
  }

  /** The chunks partition the paragraphs: their groups, concatenated, are the
      paragraph list; every chunk holds at least one paragraph; there are no
      chunks exactly when there are no paragraphs. */
  lemma ChunksPartition(paragraphs: seq<string>, maxChars: int)
    ensures var gs := ChunkGroups(paragraphs, maxChars);
      && Flatten(gs) == paragraphs
      && (forall k :: 0 <= k < |gs| ==> gs[k] != [])
      && (paragraphs == [] <==> gs == [])
  {
    PackLaws(paragraphs, ParagraphFits(maxChars));
  }

  /** Every chunk's paragraph lengths add up to at most `maxChars`, unless the
      chunk is one paragraph that is longer than `maxChars` on its own. */
  lemma ChunksWithinLimit(paragraphs: seq<string>, maxChars: int)
    ensures var gs := ChunkGroups(paragraphs, maxChars);
      forall k :: 0 <= k < |gs| ==>
        SumLen(gs[k]) <= maxChars || (|gs[k]| == 1 && |gs[k][0]| > maxChars)
  {
    var gs := ChunkGroups(paragraphs, maxChars);
    PackLaws(paragraphs, ParagraphFits(maxChars));
    forall k | 0 <= k < |gs| ensures SumLen(gs[k]) <= maxChars || (|gs[k]| == 1 && |gs[k][0]| > maxChars) {
      var g := gs[k];
      if |g| >= 2 {
        var j := |g| - 1;
        assert ParagraphFits(maxChars)(g[..j], g[j]);
        SumLenAppend(g[..j], g[j]);
        assert g[..j] + [g[j]] == g;
      } else {
        assert SumLen(g) == |g[0]|;
      }
    }
  }

  /** Chunk `k` is followed by a chunk whose first paragraph would have taken
      it past `maxChars`. */
  predicate ClosedWhenFull(gs: seq<seq<string>>, k: int, maxChars: int)
    requires 0 <= k < |gs| - 1
  {
    gs[k + 1] != [] && SumLen(gs[k]) + |gs[k + 1][0]| > maxChars
  }

  /** Greedy maximality: a chunk is closed only when adding the next
      paragraph's length would take it past `maxChars`. */
  lemma ChunksGreedy(paragraphs: seq<string>, maxChars: int)
    ensures var gs := ChunkGroups(paragraphs, maxChars);
      forall k :: 0 <= k < |gs| - 1 ==> ClosedWhenFull(gs, k, maxChars)
  {
    var gs := ChunkGroups(paragraphs, maxChars);
    PackLaws(paragraphs, ParagraphFits(maxChars));
    forall k | 0 <= k < |gs| - 1 ensures ClosedWhenFull(gs, k, maxChars) {
      assert ClosedBefore(gs, k, ParagraphFits(maxChars));
    }
  }

  /** A paragraph longer than `maxChars` is emitted whole, as a chunk of its own. */
  lemma OversizedParagraphAlone(paragraphs: seq<string>, maxChars: int, i: nat)
    requires i < |paragraphs| && |paragraphs[i]| > maxChars
    ensures [paragraphs[i]] in ChunkGroups(paragraphs, maxChars)
  {
    var gs := ChunkGroups(paragraphs, maxChars);
    var fits := ParagraphFits(maxChars);
    PackLaws(paragraphs, fits);
    FlattenMember(gs, i);
    var k, j :| 0 <= k < |gs| && 0 <= j < |gs[k]| && gs[k][j] == paragraphs[i];
    var g := gs[k];
    assert Built(g, fits);
    assert !fits(g[..j], g[j]);
    assert j == 0;
    if |g| > 1 {
      assert SumLen([g[0]]) == |g[0]|;
      FirstOfGroup(g, fits);
      assert false;
    }
    assert |g| == 1;
    assert g == [paragraphs[i]];
    assert gs[k] == [paragraphs[i]];
  }

  /** The length of a joined chunk is its paragraph lengths plus two characters
      per separator: the joined string can exceed `maxChars` by 2·(k−1) for a
      chunk of k paragraphs. */
  lemma {:induction false} JoinedLength(g: seq<string>)
    requires g != []
    ensures |Join(g, ParagraphSep)| == SumLen(g) + 2 * (|g| - 1)
  {
    if |g| > 1 { JoinedLength(g[1..]); }
  }

  /** For instance, two one-character paragraphs under a limit of 2 share one
      chunk, `"a\n\nb"`, of length 4. */
  lemma SeparatorsNotCounted()
    ensures JoinEach(ChunkGroups(["a", "b"], 2)) == ["a\n\nb"]
  {
    var fits := ParagraphFits(2);
    var ab: seq<string> := ["a", "b"];
    assert ab[1..] == ["b"] && ab[0] == "a";
    assert fits([], "a");
    assert [] + ["a"] == ["a"];
    assert Pack(ab, [], fits) == Pack(["b"], ["a"], fits);
    assert SumLen(["a"]) == 1;
    assert fits(["a"], "b");
    assert ["b"][1..] == [] && ["a"] + ["b"] == ab;
    assert Pack(["b"], ["a"], fits) == Pack([], ab, fits);
    assert Join(ab, ParagraphSep) == "a\n\nb";
    MapEachCons(JoinChunk, [ab]);
  }

  lemma {:induction false} JoinEachFlatten(gs: seq<seq<string>>)
    requires gs != [] && forall k :: 0 <= k < |gs| ==> gs[k] != []
    ensures Flatten(gs) != [] && Join(JoinEach(gs), ParagraphSep) == Join(Flatten(gs), ParagraphSep)
  {
    MapEachCons(JoinChunk, gs);
    if |gs| == 1 {
      assert JoinEach(gs) == [Join(gs[0], ParagraphSep)];
      assert Flatten(gs) == gs[0] + [];
      assert gs[0] + [] == gs[0];
    } else {
      JoinEachFlatten(gs[1..]);
      assert JoinEach(gs) == [Join(gs[0], ParagraphSep)] + JoinEach(gs[1..]);
      JoinCons(Join(gs[0], ParagraphSep), JoinEach(gs[1..]), ParagraphSep);
      JoinAppend(gs[0], Flatten(gs[1..]), ParagraphSep);
    }
  }

  /** Round trip of the whole chunker: joining the chunks with the paragraph
      separator and splitting again gives back exactly the paragraphs. */
  lemma ChunksRejoin(text: string, maxChars: int)
    ensures var ps := SplitIntoParagraphs(text);
      SplitIntoParagraphs(Join(JoinEach(ChunkGroups(ps, maxChars)), ParagraphSep)) == ps
  {
    var ps := SplitIntoParagraphs(text);
    var gs := ChunkGroups(ps, maxChars);
    ChunksPartition(ps, maxChars);
    ParagraphsWellFormed(text);
    if ps != [] {
      JoinEachFlatten(gs);
    } else {
      assert JoinEach(gs) == [];
    }
    ParagraphsRoundTrip(ps);
  }

  // ---------------------------------------------------------------------------
  // process_text

  /** `os.path.join(self.output_dir, story_name, "text")` */
  function TextDir(outputDir: string, storyName: string): string
  {
    PathJoin(PathJoin(outputDir, storyName), "text")
  }

  /** `f"part{str(i).zfill(3)}.txt"` */
  function PartFileName(i: nat): string
  {
    "part" + ZFill(Decimal(i), 3) + ".txt"
  }

  /** Part names are distinct, and numbers 1 to 999 get exactly three digits. */
  lemma PartFileNames(i: nat, j: nat)
    ensures PartFileName(i) == PartFileName(j) ==> i == j
    ensures 1 <= i <= 999 ==> |ZFill(Decimal(i), 3)| == 3
  {
    if PartFileName(i) == PartFileName(j) {
      MiddleEqual("part", ZFill(Decimal(i), 3), ZFill(Decimal(j), 3), ".txt");
      ZFillInjective(i, j, 3);
    }
    DecimalWidth(i);
  }

  /** The chunk strings `process_text` writes, in order. */
  function Chunks(text: string): seq<string>
  {
    JoinEach(ChunkGroups(SplitIntoParagraphs(text), MaxChars))
  }

  /** The path of the `i`-th chunk file (counting from 1). */
  function PartPath(outputDir: string, storyName: string, i: nat): string
  {
    PathJoin(TextDir(outputDir, storyName), PartFileName(i))
  }

  /** The loop of `process_text` over `enumerate(chunks, 1)`, with the path
      of chunk number `i` given by `pathOf(i)`: chunk `k` (from 0) is saved
      under `pathOf(k + 1)`, and the paths are returned in chunk order. */
  method SaveEnumerated(chunks: seq<string>, pathOf: nat -> string)
    returns (filePaths: seq<string>, saved: seq<(string, string)>)
    ensures |filePaths| == |chunks| && |saved| == |chunks|
    ensures forall k :: 0 <= k < |chunks| ==> filePaths[k] == pathOf(k + 1)
    ensures forall k :: 0 <= k < |chunks| ==> saved[k] == (filePaths[k], chunks[k])
  {
    filePaths, saved := [], [];
    for i := 1 to |chunks| + 1
      invariant |filePaths| == i - 1 && |saved| == i - 1
      invariant forall k :: 0 <= k < i - 1 ==> filePaths[k] == pathOf(k + 1)
      invariant forall k :: 0 <= k < i - 1 ==> saved[k] == (filePaths[k], chunks[k])
    {
      var filePath := pathOf(i);
      saved := saved + [(filePath, chunks[i - 1])];
      filePaths := filePaths + [filePath];
    }
  }

  /** The chunk files of `process_text`: chunk `k` (from 0) is saved to part
      file `k + 1` under the story's text directory, in chunk order. */
  method SaveChunks(chunks: seq<string>, outputDir: string, storyName: string)
    returns (filePaths: seq<string>, saved: seq<(string, string)>)
    ensures |filePaths| == |chunks| && |saved| == |chunks|
    ensures forall k :: 0 <= k < |chunks| ==> filePaths[k] == PartPath(outputDir, storyName, k + 1)
    ensures forall k :: 0 <= k < |chunks| ==> saved[k] == (filePaths[k], chunks[k])
  {
    filePaths, saved := SaveEnumerated(chunks, (i: nat) => PartPath(outputDir, storyName, i));
  }

  /** `process_text(text, story_name)`: the chunk file paths it returns, and the
      `(path, content)` pairs it saves, in chunk order. */
  method ProcessText(text: string, outputDir: string, storyName: string)
    returns (filePaths: seq<string>, saved: seq<(string, string)>)
    ensures |filePaths| == |Chunks(text)| && |saved| == |Chunks(text)|
    ensures forall k :: 0 <= k < |filePaths| ==> filePaths[k] == PartPath(outputDir, storyName, k + 1)
    ensures forall k :: 0 <= k < |saved| ==> saved[k] == (filePaths[k], Chunks(text)[k])
  {
    var paragraphs := SplitIntoParagraphs(text);
    var chunks := CreateChunks(paragraphs, MaxChars);
    filePaths, saved := SaveChunks(chunks, outputDir, storyName);
  }

  /** No two chunk files of one story share a path. */
  lemma PartPathsDistinct(outputDir: string, storyName: string, i: nat, j: nat)
    requires i != j
    ensures PartPath(outputDir, storyName, i) != PartPath(outputDir, storyName, j)
  {
    if PartPath(outputDir, storyName, i) == PartPath(outputDir, storyName, j) {
      PathJoinInjective(TextDir(outputDir, storyName), PartFileName(i), PartFileName(j));
      PartFileNames(i, j);
    }
  }
}
