/** `GoogleDocsService._extract_text` (src/services/google_docs_service.py):
    the text of a Google Docs API v1 `Document`, read from
    `body.content[].paragraph.elements[].textRun.content`.

    A key the JSON resource may lack is an `Option`: `None` is an absent key.
    Python's behaviour on a missing key is kept: `dict.get` yields `None`, and
    the next use of that `None` raises. */
module GoogleDocsService {
  import opened Wrappers
  import opened PyStr

  datatype TextRun = TextRun(content: Option<string>)
  datatype ParagraphElement = ParagraphElement(textRun: Option<TextRun>)
  datatype Paragraph = Paragraph(elements: Option<seq<ParagraphElement>>)
  datatype StructuralElement = StructuralElement(paragraph: Option<Paragraph>)
  datatype Body = Body(content: Option<seq<StructuralElement>>)
  datatype Document = Document(body: Option<Body>)

  /** `None.get(...)` */
  const NoneGet: PyError := AttributeError("'NoneType' object has no attribute 'get'")
  /** `for x in None` */
  const NoneIter: PyError := TypeError("'NoneType' object is not iterable")

  /** `"".join(items)` failing at item `i`, which is `None`. */
  function JoinNoneAt(i: nat): PyError
  {
    TypeError("sequence item " + Decimal(i) + ": expected str instance, NoneType found")
  }

  // ---------------------------------------------------------------------------
  // What the loops collect, element by element

  /** The values appended for the elements of one paragraph: one per element
      that has a `textRun`, in order; `None` where the run has no `content`. */
  function RunContents(elems: seq<ParagraphElement>): seq<Option<string>>
  {
    if elems == [] then []
    else
      var last := elems[|elems| - 1];
      RunContents(elems[..|elems| - 1]) + (if last.textRun.Some? then [last.textRun.value.content] else [])
  }

  /** The list `text_content` after the outer loop has visited `content`, or the
      exception raised on the way: a paragraph without `elements` raises at once. */
  function Collect(content: seq<StructuralElement>): Result<seq<Option<string>>, PyError>
  {
    if content == [] then Ok([])
    else
      var last := content[|content| - 1];
      match Collect(content[..|content| - 1])
      case Err(e) => Err(e)
      case Ok(items) =>
        if last.paragraph.None? then Ok(items)
        else if last.paragraph.value.elements.None? then Err(NoneIter)
        else Ok(items + RunContents(last.paragraph.value.elements.value))
  }

  /** `"".join(items[from:])`, reporting positions within the whole list. */
  function JoinFrom(items: seq<Option<string>>, from: nat): Result<string, PyError>
    requires from <= |items|
    decreases |items| - from
  {
    if from == |items| then Ok("")
    else if items[from].None? then Err(JoinNoneAt(from))
    else match JoinFrom(items, from + 1)
      case Err(e) => Err(e)
      case Ok(rest) => Ok(items[from].value + rest)
  }

  /** `_extract_text(document)` */
  function ExtractTextSpec(document: Document): Result<string, PyError>
  {
    if document.body.None? then Err(NoneGet)
    else if document.body.value.content.None? then Err(NoneIter)
    else match Collect(document.body.value.content.value)
      case Err(e) => Err(e)
      case Ok(items) => JoinFrom(items, 0)
  }

  // ---------------------------------------------------------------------------
  // The loops

  /** `_extract_text(document)`, loop for loop. */
  method ExtractText(document: Document) returns (r: Result<string, PyError>)
    ensures r == ExtractTextSpec(document)
  {
    if document.body.None? {
      return Err(NoneGet);
    }
    var content := document.body.value.content;
    if content.None? {
      return Err(NoneIter);
    }
    var textContent: seq<Option<string>> := [];
    for i := 0 to |content.value|
      invariant Collect(content.value[..i]) == Ok(textContent)
    {
      var element := content.value[i];
      assert content.value[..i + 1][..i] == content.value[..i];
      if element.paragraph.Some? {
        var elements := element.paragraph.value.elements;
        if elements.None? {
          CollectPrefixErr(content.value, i + 1);
          return Err(NoneIter);
        }
        ghost var before := textContent;
        for j := 0 to |elements.value|
          invariant textContent == before + RunContents(elements.value[..j])
        {
          var elem := elements.value[j];
          assert elements.value[..j + 1][..j] == elements.value[..j];
          if elem.textRun.Some? {
            textContent := textContent + [elem.textRun.value.content];
          }
        }
        assert elements.value[..|elements.value|] == elements.value;
      }
    }
    assert content.value[..|content.value|] == content.value;
    r := JoinStrings(textContent);
  }

  /** `"".join(items)` */
  method JoinStrings(items: seq<Option<string>>) returns (r: Result<string, PyError>)
    ensures r == JoinFrom(items, 0)
  {
    var acc := "";
    if JoinFrom(items, 0).Ok? {
      assert "" + JoinFrom(items, 0).value == JoinFrom(items, 0).value;
    }
    for i := 0 to |items|
      invariant JoinFrom(items, 0) == JoinPrefix(items, i, acc)
    {
      if items[i].None? {
        return Err(JoinNoneAt(i));
      }
      if JoinFrom(items, i + 1).Ok? {
        var rest := JoinFrom(items, i + 1).value;
        assert acc + (items[i].value + rest) == acc + items[i].value + rest;
      }
      acc := acc + items[i].value;
    }
    assert acc + "" == acc;
    r := Ok(acc);
  }

  /** `JoinFrom(items, 0)` once the first `i` items have been joined into `acc`. */
  ghost function JoinPrefix(items: seq<Option<string>>, i: nat, acc: string): Result<string, PyError>
    requires i <= |items|
  {
    match JoinFrom(items, i)
    case Err(e) => Err(e)
    case Ok(rest) => Ok(acc + rest)
  }

  /** An exception in a prefix of the content is the exception of the whole. */
  lemma {:induction false} CollectPrefixErr(content: seq<StructuralElement>, n: nat)
    requires n <= |content| && Collect(content[..n]).Err?
    ensures Collect(content) == Collect(content[..n])
    decreases |content| - n
  {
    if n < |content| {
      assert content[..n + 1][..n] == content[..n];
      CollectPrefixErr(content, n + 1);
    } else {
      assert content[..n] == content;
    }
  }

  // ---------------------------------------------------------------------------
  // Properties of the extracted text

  /** A document every key of which is present. */
  predicate WellFormed(content: seq<StructuralElement>)
  {
    forall k :: 0 <= k < |content| && content[k].paragraph.Some? ==>
      && content[k].paragraph.value.elements.Some?
      && forall e :: e in content[k].paragraph.value.elements.value && e.textRun.Some? ==> e.textRun.value.content.Some?
  }

  /** The text of the runs of one paragraph, in order (reference definition). */
  function ParagraphText(elems: seq<ParagraphElement>): string
  {
    if elems == [] then ""
    else
      (if elems[0].textRun.Some? && elems[0].textRun.value.content.Some?
       then elems[0].textRun.value.content.value else "")
      + ParagraphText(elems[1..])
  }

  /** The text of all paragraphs, in order (reference definition). */
  function ContentText(content: seq<StructuralElement>): string
    requires WellFormed(content)
  {
    if content == [] then ""
    else
      (if content[0].paragraph.Some? then ParagraphText(content[0].paragraph.value.elements.value) else "")
      + ContentText(content[1..])
  }

  function Concat(items: seq<Option<string>>): string
  {
    if items == [] then "" else (if items[0].Some? then items[0].value else "") + Concat(items[1..])
  }

  predicate AllSome(items: seq<Option<string>>)
  {
    forall k :: 0 <= k < |items| ==> items[k].Some?
  }

  lemma {:induction false} ConcatAppend(a: seq<Option<string>>, b: seq<Option<string>>)
    ensures Concat(a + b) == Concat(a) + Concat(b)
  {
    if a == [] {
      assert a + b == b;
    } else {
      assert (a + b)[1..] == a[1..] + b;
      ConcatAppend(a[1..], b);
    }
  }

  /** With no `None` among the items, the join succeeds with their concatenation. */
  lemma {:induction false} JoinFromAllSome(items: seq<Option<string>>, from: nat)
    requires from <= |items| && AllSome(items)
    ensures JoinFrom(items, from) == Ok(Concat(items[from..]))
    decreases |items| - from
  {
    if from < |items| {
      JoinFromAllSome(items, from + 1);
      assert items[from..][1..] == items[from + 1..];
    }
  }

  /** A `None` among the items makes the join fail at the first of them. */
  lemma {:induction false} JoinFromFirstNone(items: seq<Option<string>>, from: nat, i: nat)
    requires from <= i < |items| && items[i].None?
    requires forall k :: from <= k < i ==> items[k].Some?
    ensures JoinFrom(items, from) == Err(JoinNoneAt(i))
    decreases i - from
  {
    if from < i {
      JoinFromFirstNone(items, from + 1, i);
    }
  }

  lemma {:induction false} RunContentsText(elems: seq<ParagraphElement>)
    requires forall e :: e in elems && e.textRun.Some? ==> e.textRun.value.content.Some?
    ensures AllSome(RunContents(elems))
    ensures Concat(RunContents(elems)) == ParagraphText(elems)
  {
    if elems != [] {
      var init, last := elems[..|elems| - 1], elems[|elems| - 1];
      RunContentsText(init);
      var tail := if last.textRun.Some? then [last.textRun.value.content] else [];
      ConcatAppend(RunContents(init), tail);
      ParagraphTextSnoc(init, last);
      assert init + [last] == elems;
    }
  }

  lemma {:induction false} ParagraphTextSnoc(elems: seq<ParagraphElement>, last: ParagraphElement)
    ensures ParagraphText(elems + [last]) == ParagraphText(elems)
      + (if last.textRun.Some? && last.textRun.value.content.Some? then last.textRun.value.content.value else "")
  {
    if elems == [] {
      assert [] + [last] == [last];
    } else {
      assert (elems + [last])[1..] == elems[1..] + [last];
      ParagraphTextSnoc(elems[1..], last);
    }
  }

  lemma {:induction false} ContentTextSnoc(content: seq<StructuralElement>, last: StructuralElement)
    requires WellFormed(content + [last])
    ensures WellFormed(content) && WellFormed([last])
    ensures ContentText(content + [last]) == ContentText(content) + ContentText([last])
  {
    var c := content + [last];
    forall k | 0 <= k < |content| ensures content[k] == c[k] { }
    assert c[|content|] == last;
    if content == [] {
      assert c == [last];
    } else {
      assert c[1..] == content[1..] + [last];
      ContentTextSnoc(content[1..], last);
    }
  }

  /** On a document with every key present, extraction collects only
      `Some` values and never fails; its items concatenate to the reference text. */
  lemma {:induction false} CollectWellFormed(content: seq<StructuralElement>)
    requires WellFormed(content)
    ensures Collect(content).Ok? && AllSome(Collect(content).value)
    ensures Concat(Collect(content).value) == ContentText(content)
  {
    if content != [] {
      var init, last := content[..|content| - 1], content[|content| - 1];
      assert init + [last] == content;
      ContentTextSnoc(init, last);
      CollectWellFormed(init);
      var items := Collect(init).value;
      if last.paragraph.Some? {
        var elems := last.paragraph.value.elements.value;
        assert forall e :: e in elems && e.textRun.Some? ==> e.textRun.value.content.Some?;
        RunContentsText(elems);
        ConcatAppend(items, RunContents(elems));
        assert ContentText([last]) == ParagraphText(elems) + ContentText([]);
      } else {
        assert ContentText([last]) == "" + ContentText([]);
      }
    }
  }

  /** `_extract_text` returns the concatenation, in document order, of every
      `textRun.content` of every paragraph: nothing else contributes. */
  lemma ExtractTextWellFormed(document: Document)
    requires document.body.Some? && document.body.value.content.Some?
    requires WellFormed(document.body.value.content.value)
    ensures ExtractTextSpec(document) == Ok(ContentText(document.body.value.content.value))
  {
    var content := document.body.value.content.value;
    CollectWellFormed(content);
    JoinFromAllSome(Collect(content).value, 0);
    assert Collect(content).value[0..] == Collect(content).value;
  }

  /** Empty body content gives the empty text. */
  lemma ExtractTextEmpty(document: Document)
    requires document.body.Some? && document.body.value.content == Some([])
    ensures ExtractTextSpec(document) == Ok("")
  {
  }

  /** The collected list of concatenated content is the two lists one after
      the other; an exception in either part is the exception of the whole,
      the first part's first. */
  lemma {:induction false} CollectAppend(a: seq<StructuralElement>, b: seq<StructuralElement>)
    ensures Collect(a + b) ==
      match Collect(a)
      case Err(e) => Err(e)
      case Ok(x) => (match Collect(b) case Err(e) => Err(e) case Ok(y) => Ok(x + y))
    decreases |b|
  {
    if b == [] {
      assert a + b == a;
      if Collect(a).Ok? { assert Collect(a).value + [] == Collect(a).value; }
    } else {
      var c := a + b;
      var init := b[..|b| - 1];
      assert c[..|c| - 1] == a + init && c[|c| - 1] == b[|b| - 1];
      CollectAppend(a, init);
      if Collect(a).Ok? && Collect(init).Ok? {
        var x, y := Collect(a).value, Collect(init).value;
        var last := b[|b| - 1];
        if last.paragraph.Some? && last.paragraph.value.elements.Some? {
          assert x + y + RunContents(last.paragraph.value.elements.value)
              == x + (y + RunContents(last.paragraph.value.elements.value));
        }
      }
    }
  }

  /** Structural elements that are not paragraphs contribute nothing. */
  lemma {:induction false} CollectSkipsNonParagraph(a: seq<StructuralElement>, x: StructuralElement, b: seq<StructuralElement>)
    requires x.paragraph.None?
    ensures Collect(a + [x] + b) == Collect(a + b)
  {
    CollectAppend(a + [x], b);
    CollectAppend(a, b);
    CollectAppend(a, [x]);
    assert [x][..0] == [];
    assert Collect([x]) == Ok([]);
    if Collect(a).Ok? { assert Collect(a).value + [] == Collect(a).value; }
  }

  lemma {:induction false} RunContentsAppend(a: seq<ParagraphElement>, b: seq<ParagraphElement>)
    ensures RunContents(a + b) == RunContents(a) + RunContents(b)
    decreases |b|
  {
    if b == [] {
      assert a + b == a;
    } else {
      var c := a + b;
      assert c[..|c| - 1] == a + b[..|b| - 1] && c[|c| - 1] == b[|b| - 1];
      RunContentsAppend(a, b[..|b| - 1]);
    }
  }

  /** Paragraph elements without a `textRun` contribute nothing. */
  lemma RunContentsSkipsNoRun(a: seq<ParagraphElement>, e: ParagraphElement, b: seq<ParagraphElement>)
    requires e.textRun.None?
    ensures RunContents(a + [e] + b) == RunContents(a + b)
  {
    RunContentsAppend(a + [e], b);
    RunContentsAppend(a, [e]);
    RunContentsAppend(a, b);
    assert [e][..0] == [];
  }

  /** On well-formed content, the text of concatenated content is the
      concatenation of the texts. */
  lemma {:induction false} ContentTextAppend(a: seq<StructuralElement>, b: seq<StructuralElement>)
    requires WellFormed(a + b)
    ensures WellFormed(a) && WellFormed(b)
    ensures ContentText(a + b) == ContentText(a) + ContentText(b)
  {
    var c := a + b;
    forall k | 0 <= k < |a| ensures a[k] == c[k] { }
    forall k | 0 <= k < |b| ensures b[k] == c[|a| + k] { }
    if a == [] {
      assert c == b;
    } else {
      assert c[1..] == a[1..] + b;
      ContentTextAppend(a[1..], b);
    }
  }
}
