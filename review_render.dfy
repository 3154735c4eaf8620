/**
 * The body of one section in the review panel: with code blocks, the content
 * is cut into the text before each block, the block itself and the text
 * after the last block, walking `lastIndex` from block to block; blank text
 * is skipped and kept text is trimmed. Without code blocks the content is
 * shown as it is.
 */
module ReviewRender {
  import opened Wrappers
  import opened JsText
  import CodeFences
  import AiReview

  /** A rendered piece of a section body: preformatted prose or a code block. */
  datatype Element = Prose(text: string) | Code(code: string)

  /** Text that is not blank and neither starts nor ends with white space. */
  predicate Trimmed(t: string) {
    t != [] && !IsSpace(t[0]) && !IsSpace(t[|t| - 1])
  }

  /** The prose element for a stretch of content, if it is not blank. */
  function ProseOf(t: string): (r: seq<Element>)
    ensures |r| <= 1
    ensures r == [] <==> AllSpace(t)
    ensures r != [] ==> r[0].Prose? && Trimmed(r[0].text)
  {
    var trimmed := Trim(t);
    if trimmed == [] then [] else [Prose(trimmed)]
  }

  /** The codes of the code elements, in order. */
  function CodesOf(es: seq<Element>): seq<string> {
    if es == [] then []
    else (if es[0].Code? then [es[0].code] else []) + CodesOf(es[1..])
  }

  lemma {:induction false} CodesOfAppend(a: seq<Element>, b: seq<Element>)
    ensures CodesOf(a + b) == CodesOf(a) + CodesOf(b)
    decreases |a|
  {
    if a == [] {
      assert a + b == b;
    } else {
      var head := if a[0].Code? then [a[0].code] else [];
      assert (a + b)[1..] == a[1..] + b;
      assert (a + b)[0] == a[0];
      assert CodesOf(a + b) == head + CodesOf(a[1..] + b);
      assert CodesOf(a) == head + CodesOf(a[1..]);
      CodesOfAppend(a[1..], b);
      assert head + (CodesOf(a[1..]) + CodesOf(b)) == (head + CodesOf(a[1..])) + CodesOf(b);
    }
  }

  /** The codes of the blocks, in order. */
  function BlockCodes(blocks: seq<CodeFences.CodeBlock>): seq<string> {
    if blocks == [] then [] else [blocks[0].code] + BlockCodes(blocks[1..])
  }

  /**
   * The elements the `forEach` pushes once `lastIndex` is `from`, followed by
   * the element for the text after the last block.
   */
  function ElementsFrom(content: string, blocks: seq<CodeFences.CodeBlock>, from: nat): (r: seq<Element>)
    ensures |blocks| <= |r| <= 2 * |blocks| + 1
    decreases |blocks|
  {
    if blocks == [] then ProseOf(Slice(content, from, |content|))
    else
      var b := blocks[0];
      ProseOf(Slice(content, from, b.startIndex)) + [Code(b.code)] + ElementsFrom(content, blocks[1..], b.endIndex)
  }

  /** Every prose element of `es` is trimmed and not blank. */
  predicate ProseTrimmed(es: seq<Element>) {
    forall k :: 0 <= k < |es| && es[k].Prose? ==> Trimmed(es[k].text)
  }

  lemma ProseTrimmedAppend(xs: seq<Element>, ys: seq<Element>)
    requires ProseTrimmed(xs) && ProseTrimmed(ys)
    ensures ProseTrimmed(xs + ys)
  {
    forall k | 0 <= k < |xs + ys| && (xs + ys)[k].Prose?
      ensures Trimmed((xs + ys)[k].text)
    {
      if k >= |xs| {
        assert (xs + ys)[k] == ys[k - |xs|];
      }
    }
  }

  /** Prose elements are never blank and carry no surrounding whitespace. */
  lemma {:induction false} ProseIsTrimmed(content: string, blocks: seq<CodeFences.CodeBlock>, from: nat)
    ensures ProseTrimmed(ElementsFrom(content, blocks, from))
    decreases |blocks|
  {
    if blocks != [] {
      var b := blocks[0];
      var before := ProseOf(Slice(content, from, b.startIndex));
      var rest := ElementsFrom(content, blocks[1..], b.endIndex);
      ProseIsTrimmed(content, blocks[1..], b.endIndex);
      ProseTrimmedAppend(before, [Code(b.code)]);
      ProseTrimmedAppend(before + [Code(b.code)], rest);
    }
  }

  lemma CodesOfProse(t: string)
    ensures CodesOf(ProseOf(t)) == []
  {
    var r := ProseOf(t);
    if r != [] {
      assert CodesOf(r) == [] + CodesOf(r[1..]);
    }
  }

  /** The code elements are the blocks' codes, each block once and in order. */
  lemma {:induction false} ElementsCarryBlockCodes(content: string, blocks: seq<CodeFences.CodeBlock>, from: nat)
    ensures CodesOf(ElementsFrom(content, blocks, from)) == BlockCodes(blocks)
    decreases |blocks|
  {
    if blocks == [] {
      CodesOfProse(Slice(content, from, |content|));
    } else {
      var b := blocks[0];
      var before := ProseOf(Slice(content, from, b.startIndex));
      var rest := ElementsFrom(content, blocks[1..], b.endIndex);
      ElementsCarryBlockCodes(content, blocks[1..], b.endIndex);
      CodesOfAppend(before + [Code(b.code)], rest);
      CodesOfAppend(before, [Code(b.code)]);
      CodesOfProse(Slice(content, from, b.startIndex));
      assert CodesOf([Code(b.code)]) == [b.code] + CodesOf([]);
    }
  }

  /** One turn of the `forEach`: the prose before block `i` and the block itself, then the rest from its end. */
  lemma ElementsFromStep(content: string, blocks: seq<CodeFences.CodeBlock>, i: nat, lastIndex: nat,
                         elements: seq<Element>, before: seq<Element>)
    requires i < |blocks|
    requires elements + ElementsFrom(content, blocks[i..], lastIndex) == ElementsFrom(content, blocks, 0)
    requires before == ProseOf(Slice(content, lastIndex, blocks[i].startIndex))
    ensures (elements + before + [Code(blocks[i].code)]) + ElementsFrom(content, blocks[i + 1..], blocks[i].endIndex)
      == ElementsFrom(content, blocks, 0)
  {
    assert blocks[i..][0] == blocks[i];
    assert blocks[i..][1..] == blocks[i + 1..];
    var rest := ElementsFrom(content, blocks[i + 1..], blocks[i].endIndex);
    assert ElementsFrom(content, blocks[i..], lastIndex) == before + [Code(blocks[i].code)] + rest;
    AppendRegroup(elements, before, Code(blocks[i].code), rest, ElementsFrom(content, blocks, 0));
  }

  lemma AppendRegroup(xs: seq<Element>, ys: seq<Element>, e: Element, zs: seq<Element>, whole: seq<Element>)
    requires xs + (ys + [e] + zs) == whole
    ensures xs + ys + [e] + zs == whole
  {
    assert ys + [e] + zs == ys + ([e] + zs);
    assert xs + ys + [e] + zs == xs + (ys + ([e] + zs));
  }

  /**
   * The body a section renders to: the segmented content when it has code
   * blocks, otherwise the content as it is. Either way every code block of
   * the section is shown, once and in order.
   */
  function SectionView(section: AiReview.Section): (r: seq<Element>)
    ensures CodesOf(r) == BlockCodes(section.codeBlocks)
  {
    if |section.codeBlocks| > 0 then
      ElementsCarryBlockCodes(section.content, section.codeBlocks, 0);
      ElementsFrom(section.content, section.codeBlocks, 0)
    else
      assert CodesOf([Prose(section.content)]) == [] + CodesOf([]);
      [Prose(section.content)]
  }

  /**
   * The raw stretches the loop walks over: the slice before each block, the
   * block's match, and the slice after the last block.
   */
  function Segments(content: string, blocks: seq<CodeFences.CodeBlock>, from: nat): (r: seq<string>)
    ensures |r| == 2 * |blocks| + 1
    decreases |blocks|
  {
    if blocks == [] then [Slice(content, from, |content|)]
    else [Slice(content, from, blocks[0].startIndex), blocks[0].fullMatch] + Segments(content, blocks[1..], blocks[0].endIndex)
  }

  /**
   * The elements made from segments: the prose of each slice before a
   * block, the block's code, and the prose of the slice after the last block.
   */
  function Interleave(segs: seq<string>, blocks: seq<CodeFences.CodeBlock>): seq<Element>
    requires |segs| == 2 * |blocks| + 1
    decreases |blocks|
  {
    if blocks == [] then ProseOf(segs[0])
    else ProseOf(segs[0]) + [Code(blocks[0].code)] + Interleave(segs[2..], blocks[1..])
  }

  /** The elements the loop pushes are exactly the trimmed stretches it walks over, interleaved with the block codes. */
  lemma {:induction false} ElementsFollowSegments(content: string, blocks: seq<CodeFences.CodeBlock>, from: nat)
    ensures ElementsFrom(content, blocks, from) == Interleave(Segments(content, blocks, from), blocks)
    decreases |blocks|
  {
    if blocks != [] {
      var segs := Segments(content, blocks, from);
      ElementsFollowSegments(content, blocks[1..], blocks[0].endIndex);
      assert segs[2..] == Segments(content, blocks[1..], blocks[0].endIndex);
    }
  }

  /**
   * The blocks lie in order inside `content` from `from` on, each starting no
   * earlier than the previous one ended, so `lastIndex` never moves back, and
   * each match is the content between its bounds.
   */
  predicate Tiles(content: string, blocks: seq<CodeFences.CodeBlock>, from: nat)
    decreases |blocks|
  {
    && from <= |content|
    && (blocks != [] ==>
      var b := blocks[0];
      && from <= b.startIndex <= b.endIndex <= |content|
      && b.fullMatch == content[b.startIndex..b.endIndex]
      && Tiles(content, blocks[1..], b.endIndex))
  }

  /** The blocks `extractCodeBlocks` finds tile the text they were found in. */
  lemma {:induction false} CodeBlocksTile(s: string, from: nat)
    requires from <= |s|
    ensures Tiles(s, CodeFences.CodeBlocksFrom(s, from), from)
    decreases |s| - from
  {
    match CodeFences.Exec(s, from)
    case None =>
    case Some(b) =>
      CodeFences.BlockAtWellFormed(s, b.startIndex);
      CodeBlocksTile(s, b.endIndex);
      assert CodeFences.CodeBlocksFrom(s, from) == [b] + CodeFences.CodeBlocksFrom(s, b.endIndex);
  }

  /** Text before, blocks and text after put back together give the content from `from` on. */
  lemma {:induction false} SegmentsCoverContent(content: string, blocks: seq<CodeFences.CodeBlock>, from: nat)
    requires Tiles(content, blocks, from)
    ensures AiReview.Concat(Segments(content, blocks, from)) == content[from..]
    decreases |blocks|
  {
    if blocks == [] {
      ConcatOne(content[from..]);
    } else {
      var b := blocks[0];
      var rest := Segments(content, blocks[1..], b.endIndex);
      SegmentsCoverContent(content, blocks[1..], b.endIndex);
      ConcatTwoThen(content[from..b.startIndex], b.fullMatch, rest);
      SplitThree(content, from, b.startIndex, b.endIndex);
    }
  }

  lemma ConcatOne(x: string)
    ensures AiReview.Concat([x]) == x
  {
    assert [x][1..] == [];
  }

  lemma ConcatTwoThen(x: string, y: string, rest: seq<string>)
    ensures AiReview.Concat([x, y] + rest) == x + (y + AiReview.Concat(rest))
  {
    var ps := [x, y] + rest;
    assert ps[1..][1..] == rest;
  }

  lemma SplitThree(s: string, i: nat, j: nat, k: nat)
    requires i <= j <= k <= |s|
    ensures s[i..] == s[i..j] + (s[j..k] + s[k..])
  {
  }

  /** Every section `formatAiReview` makes carries the blocks found in its own content. */
  lemma SectionBlocksComeFromContent(text: string, i: nat)
    requires AiReview.ReviewSections(Some(text)).Some?
    requires i < |AiReview.ReviewSections(Some(text)).value|
    ensures var section := AiReview.ReviewSections(Some(text)).value[i];
      section.codeBlocks == CodeFences.CodeBlocks(section.content)
  {
    var ps := AiReview.Pieces(text);
    if AiReview.NumberedSections(ps) != [] {
      AiReview.SectionsComeFromPieces(ps, i);
    }
  }

  /** For every section of a review, the segmentation walks over its whole content, in order. */
  lemma SectionSegmentsCoverContent(text: string, i: nat)
    requires AiReview.ReviewSections(Some(text)).Some?
    requires i < |AiReview.ReviewSections(Some(text)).value|
    ensures var section := AiReview.ReviewSections(Some(text)).value[i];
      && Tiles(section.content, section.codeBlocks, 0)
      && AiReview.Concat(Segments(section.content, section.codeBlocks, 0)) == section.content
  {
    var section := AiReview.ReviewSections(Some(text)).value[i];
    SectionBlocksComeFromContent(text, i);
    CodeBlocksTile(section.content, 0);
    SegmentsCoverContent(section.content, section.codeBlocks, 0);
    assert section.content[0..] == section.content;
  }

  /** One turn of the loop moves past the slice before block `i` and the block's match. */
  lemma SegmentsStep(content: string, blocks: seq<CodeFences.CodeBlock>, i: nat, lastIndex: nat, slices: seq<string>)
    requires i < |blocks|
    requires slices + Segments(content, blocks[i..], lastIndex) == Segments(content, blocks, 0)
    ensures (slices + [Slice(content, lastIndex, blocks[i].startIndex), blocks[i].fullMatch])
      + Segments(content, blocks[i + 1..], blocks[i].endIndex) == Segments(content, blocks, 0)
  {
    assert blocks[i..][0] == blocks[i];
    assert blocks[i..][1..] == blocks[i + 1..];
  }

  /**
   * The `forEach` over `section.codeBlocks` and the text after the last
   * block. `slices` records the stretches of content `lastIndex` walks over.
   */
  method SegmentContent(content: string, blocks: seq<CodeFences.CodeBlock>) returns (elements: seq<Element>, ghost slices: seq<string>)
    ensures elements == ElementsFrom(content, blocks, 0)
    ensures slices == Segments(content, blocks, 0)
    ensures elements == Interleave(slices, blocks)
    ensures Tiles(content, blocks, 0) ==> AiReview.Concat(slices) == content
  {
    var lastIndex: nat := 0;
    elements := [];
    slices := [];
    for i := 0 to |blocks|
      invariant elements + ElementsFrom(content, blocks[i..], lastIndex) == ElementsFrom(content, blocks, 0)
      invariant slices + Segments(content, blocks[i..], lastIndex) == Segments(content, blocks, 0)
    {
      var block := blocks[i];
      var textBefore := Slice(content, lastIndex, block.startIndex);
      var before: seq<Element> := [];
      if Trim(textBefore) != [] {
        before := [Prose(Trim(textBefore))];
      }
      ElementsFromStep(content, blocks, i, lastIndex, elements, before);
      SegmentsStep(content, blocks, i, lastIndex, slices);
      elements := elements + before + [Code(block.code)];
      slices := slices + [textBefore, block.fullMatch];
      lastIndex := block.endIndex;
    }
    assert blocks[|blocks|..] == [];
    var textAfter := Slice(content, lastIndex, |content|);
    var after: seq<Element> := [];
    if Trim(textAfter) != [] {
      after := [Prose(Trim(textAfter))];
    }
    SegmentsFinish(content, blocks, lastIndex, elements, slices, after);
    elements := elements + after;
    slices := slices + [textAfter];
    SegmentsOfContent(content, blocks);
  }

  /** After the last block: the text after it closes both the elements and the segments. */
  lemma SegmentsFinish(content: string, blocks: seq<CodeFences.CodeBlock>, lastIndex: nat,
                       elements: seq<Element>, slices: seq<string>, after: seq<Element>)
    requires elements + ElementsFrom(content, [], lastIndex) == ElementsFrom(content, blocks, 0)
    requires slices + Segments(content, [], lastIndex) == Segments(content, blocks, 0)
    requires after == ProseOf(Slice(content, lastIndex, |content|))
    ensures elements + after == ElementsFrom(content, blocks, 0)
    ensures slices + [Slice(content, lastIndex, |content|)] == Segments(content, blocks, 0)
  {
  }

  /** The segments of the whole content, interleaved with the codes, are its elements, and rebuild it when the blocks tile it. */
  lemma SegmentsOfContent(content: string, blocks: seq<CodeFences.CodeBlock>)
    ensures ElementsFrom(content, blocks, 0) == Interleave(Segments(content, blocks, 0), blocks)
    ensures Tiles(content, blocks, 0) ==> AiReview.Concat(Segments(content, blocks, 0)) == content
  {
    ElementsFollowSegments(content, blocks, 0);
    if Tiles(content, blocks, 0) {
      SegmentsCoverContent(content, blocks, 0);
      assert content[0..] == content;
    }
  }
}
