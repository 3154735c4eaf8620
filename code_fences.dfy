/**
 * `extractCodeBlocks`: repeated `exec` of the global pattern
 * ```` /```[\w]*\n?([\s\S]*?)```/g ```` over a text, collecting one code block
 * per match. A failed `exec` ends the loop; a successful one resumes the
 * search at the end of its match.
 */
module CodeFences {
  import opened Wrappers
  import opened JsText

  /** One match: the matched text, the trimmed body and the match's bounds. */
  datatype CodeBlock = CodeBlock(fullMatch: string, code: string, startIndex: nat, endIndex: nat)

  /** Three backticks, a fence, start at index `m` of `s`. */
  predicate FenceAt(s: string, m: nat) {
    m + 3 <= |s| && s[m] == '`' && s[m + 1] == '`' && s[m + 2] == '`'
  }

  /** End of the longest run of `\w` starting at `i`. */
  function WordEnd(s: string, i: nat): (e: nat)
    requires i <= |s|
    ensures i <= e <= |s|
    ensures forall k :: i <= k < e ==> IsWordChar(s[k])
    ensures e == |s| || !IsWordChar(s[e])
    decreases |s| - i
  {
    if i < |s| && IsWordChar(s[i]) then WordEnd(s, i + 1) else i
  }

  /**
   * Where the captured body starts for an opening fence at `p`: after the
   * language tag `[\w]*` and at most one newline.
   */
  function BodyStart(s: string, p: nat): (b: nat)
    requires FenceAt(s, p)
    ensures p + 3 <= b <= |s|
    ensures b == WordEnd(s, p + 3) || (b == WordEnd(s, p + 3) + 1 && s[b - 1] == '\n')
  {
    var w := WordEnd(s, p + 3);
    if w < |s| && s[w] == '\n' then w + 1 else w
  }

  /** The nearest fence at or after `j`: where the lazy `[\s\S]*?` stops. */
  function NextFence(s: string, j: nat): (k: Option<nat>)
    requires j <= |s|
    ensures k.Some? ==> j <= k.value && FenceAt(s, k.value)
    ensures k.Some? ==> forall m :: j <= m < k.value ==> !FenceAt(s, m)
    ensures k.None? ==> forall m :: j <= m <= |s| ==> !FenceAt(s, m)
    decreases |s| - j
  {
    if j + 3 > |s| then None
    else if FenceAt(s, j) then Some(j)
    else NextFence(s, j + 1)
  }

  /**
   * The pattern matches starting exactly at `p`. When the greedy choices (the
   * whole `\w` run, the newline) find no closing fence, the shorter choices
   * find none either, because a closing fence cannot begin inside the tag or
   * on the newline; so this one test decides the match.
   */
  predicate Matches(s: string, p: nat) {
    p <= |s| && FenceAt(s, p) && NextFence(s, BodyStart(s, p)).Some?
  }

  /** The block the match at `p` produces. */
  function BlockAt(s: string, p: nat): (b: CodeBlock)
    requires Matches(s, p)
    ensures b.startIndex == p && p + 6 <= b.endIndex <= |s|
  {
    var body := BodyStart(s, p);
    var k := NextFence(s, body).value;
    CodeBlock(s[p..k + 3], Trim(s[body..k]), p, k + 3)
  }

  /**
   * The match of a block is the slice of `s` between its bounds, and it opens
   * and closes with a fence.
   */
  predicate MatchedSlice(s: string, b: CodeBlock) {
    && b.startIndex + 6 <= b.endIndex <= |s|
    && b.endIndex == b.startIndex + |b.fullMatch|
    && b.fullMatch == s[b.startIndex..b.endIndex]
    && FenceAt(b.fullMatch, 0)
    && FenceAt(b.fullMatch, |b.fullMatch| - 3)
  }

  /**
   * The code of a block is the trimmed text from the body start (after the
   * opening fence, the tag and at most one newline) to the closing fence, and
   * no fence begins in between: the closing fence is the nearest one.
   */
  predicate TrimmedBody(s: string, b: CodeBlock) {
    && FenceAt(s, b.startIndex)
    && b.endIndex <= |s|
    && var body := BodyStart(s, b.startIndex);
       && body + 3 <= b.endIndex
       && b.code == Trim(s[body..b.endIndex - 3])
       && forall m :: body <= m < b.endIndex - 3 ==> !FenceAt(s, m)
  }

  /** What a block matched in `s` satisfies. */
  predicate WellFormed(s: string, b: CodeBlock) {
    MatchedSlice(s, b) && TrimmedBody(s, b)
  }

  lemma BlockAtMatchedSlice(s: string, p: nat)
    requires Matches(s, p)
    ensures MatchedSlice(s, BlockAt(s, p))
  {
    var body := BodyStart(s, p);
    var k := NextFence(s, body).value;
    var m := s[p..k + 3];
    assert BlockAt(s, p) == CodeBlock(m, Trim(s[body..k]), p, k + 3);
    assert FenceAt(m, 0) by {
      assert m[0] == s[p] && m[1] == s[p + 1] && m[2] == s[p + 2];
    }
    assert FenceAt(m, |m| - 3) by {
      assert |m| - 3 == k - p;
      assert m[k - p] == s[k] && m[k - p + 1] == s[k + 1] && m[k - p + 2] == s[k + 2];
    }
  }

  lemma BlockAtTrimmedBody(s: string, p: nat)
    requires Matches(s, p)
    ensures TrimmedBody(s, BlockAt(s, p))
  {
    var body := BodyStart(s, p);
    var k := NextFence(s, body).value;
    var b := BlockAt(s, p);
    assert b.endIndex - 3 == k;
    assert b.code == Trim(s[body..k]);
  }

  lemma BlockAtWellFormed(s: string, p: nat)
    requires Matches(s, p)
    ensures WellFormed(s, BlockAt(s, p))
  {
    BlockAtMatchedSlice(s, p);
    BlockAtTrimmedBody(s, p);
  }

  /** The smallest index `p >= from` at which the pattern matches. */
  function FirstMatch(s: string, from: nat): (r: Option<nat>)
    requires from <= |s|
    ensures r.Some? ==> from <= r.value && Matches(s, r.value)
    ensures r.Some? ==> forall p :: from <= p < r.value ==> !Matches(s, p)
    ensures r.None? ==> forall p :: from <= p ==> !Matches(s, p)
    decreases |s| - from
  {
    if Matches(s, from) then Some(from)
    else if from == |s| then None
    else FirstMatch(s, from + 1)
  }

  /** `exec` with `lastIndex` at `from`: the leftmost match at or after `from`. */
  function Exec(s: string, from: nat): (r: Option<CodeBlock>)
    requires from <= |s|
    ensures r.Some? ==> from <= r.value.startIndex && Matches(s, r.value.startIndex)
    ensures r.Some? ==> r.value == BlockAt(s, r.value.startIndex)
    ensures r.Some? ==> forall p :: from <= p < r.value.startIndex ==> !Matches(s, p)
    ensures r.None? ==> forall p :: from <= p ==> !Matches(s, p)
  {
    match FirstMatch(s, from)
    case None => None
    case Some(p) => Some(BlockAt(s, p))
  }

  /** The pattern matches at no index in `[a, b)`. */
  predicate NoMatchIn(s: string, a: nat, b: nat) {
    forall p :: a <= p < b ==> !Matches(s, p)
  }

  /** Where the scan that found block `k` of `r` started: `from`, or the end of block `k - 1`. */
  function ScanStart(r: seq<CodeBlock>, k: nat, from: nat): nat
    requires k <= |r|
  {
    if k == 0 then from else r[k - 1].endIndex
  }

  /**
   * The blocks the loop collects once `lastIndex` is `from`: `exec` from
   * `from`, then from the end of each match, until it fails.
   */
  function CodeBlocksFrom(s: string, from: nat): (r: seq<CodeBlock>)
    requires from <= |s|
    ensures forall k :: 0 <= k < |r| ==> from <= r[k].startIndex < r[k].endIndex <= |s|
    decreases |s| - from
  {
    match Exec(s, from)
    case None => []
    case Some(b) =>
      assert from <= b.startIndex < b.endIndex <= |s| by {
        assert b == BlockAt(s, b.startIndex);
      }
      var rest := CodeBlocksFrom(s, b.endIndex);
      assert forall k :: 0 < k <= |rest| ==> ([b] + rest)[k] == rest[k - 1];
      [b] + rest
  }

  /** Block `k` is the block of the match at its start index. */
  lemma {:induction false} BlockFound(s: string, from: nat, k: nat)
    requires from <= |s| && k < |CodeBlocksFrom(s, from)|
    ensures var r := CodeBlocksFrom(s, from);
      Matches(s, r[k].startIndex) && r[k] == BlockAt(s, r[k].startIndex)
    decreases k
  {
    var r := CodeBlocksFrom(s, from);
    var b := Exec(s, from).value;
    var rest := CodeBlocksFrom(s, b.endIndex);
    assert r == [b] + rest;
    if k > 0 {
      BlockFound(s, b.endIndex, k - 1);
      assert r[k] == rest[k - 1];
    }
  }

  /**
   * Block `k` starts no earlier than the scan that found it began (so no
   * earlier than block `k - 1` ends), and no match begins in the stretch that
   * scan stepped over: `exec` finds the leftmost match.
   */
  lemma {:induction false} ScanSkipsNoMatch(s: string, from: nat, k: nat)
    requires from <= |s| && k < |CodeBlocksFrom(s, from)|
    ensures var r := CodeBlocksFrom(s, from);
      ScanStart(r, k, from) <= r[k].startIndex && NoMatchIn(s, ScanStart(r, k, from), r[k].startIndex)
    decreases k
  {
    var r := CodeBlocksFrom(s, from);
    var b := Exec(s, from).value;
    var rest := CodeBlocksFrom(s, b.endIndex);
    assert r == [b] + rest;
    if k == 0 {
      assert r[0] == b;
      assert NoMatchIn(s, from, b.startIndex);
    } else {
      assert r[k] == rest[k - 1];
      assert ScanStart(r, k, from) == ScanStart(rest, k - 1, b.endIndex);
      ScanSkipsNoMatch(s, b.endIndex, k - 1);
    }
  }

  /** Block `k` starts no earlier than block `k - 1` ends. */
  lemma {:induction false} BlockFollowsPrevious(s: string, from: nat, k: nat)
    requires from <= |s| && 0 < k < |CodeBlocksFrom(s, from)|
    ensures CodeBlocksFrom(s, from)[k - 1].endIndex <= CodeBlocksFrom(s, from)[k].startIndex
    decreases k
  {
    var r := CodeBlocksFrom(s, from);
    var b := Exec(s, from).value;
    var rest := CodeBlocksFrom(s, b.endIndex);
    assert r == [b] + rest;
    if k == 1 {
      assert r[0] == b && r[1] == rest[0];
      assert b.endIndex <= rest[0].startIndex;
    } else {
      BlockFollowsPrevious(s, b.endIndex, k - 1);
      assert r[k - 1] == rest[k - 2] && r[k] == rest[k - 1];
    }
  }

  /**
   * One turn of the loop: a successful `exec` contributes its block, and the
   * scan resumes at its end.
   */
  lemma CodeBlocksFromStep(s: string, done: seq<CodeBlock>, from: nat)
    requires from <= |s| && Exec(s, from).Some?
    requires done + CodeBlocksFrom(s, from) == CodeBlocks(s)
    ensures from < Exec(s, from).value.endIndex <= |s|
    ensures (done + [Exec(s, from).value]) + CodeBlocksFrom(s, Exec(s, from).value.endIndex) == CodeBlocks(s)
  {
    var b := Exec(s, from).value;
    var rest := CodeBlocksFrom(s, b.endIndex);
    assert CodeBlocksFrom(s, from) == [b] + rest;
    assert done + ([b] + rest) == (done + [b]) + rest;
  }

  /** After the last block found from `from` the pattern matches nowhere. */
  lemma {:induction false} NoMatchAfterLastBlock(s: string, from: nat)
    requires from <= |s|
    ensures NoMatchIn(s, ScanStart(CodeBlocksFrom(s, from), |CodeBlocksFrom(s, from)|, from), |s| + 1)
    decreases |s| - from
  {
    match Exec(s, from)
    case None =>
    case Some(b) =>
      NoMatchAfterLastBlock(s, b.endIndex);
      var rest := CodeBlocksFrom(s, b.endIndex);
      var r := CodeBlocksFrom(s, from);
      assert r == [b] + rest;
      if rest != [] {
        assert r[|r| - 1] == rest[|rest| - 1];
      }
  }

  /** `extractCodeBlocks(text)` as a value. */
  function CodeBlocks(s: string): (r: seq<CodeBlock>)
    ensures r == [] <==> Exec(s, 0).None?
    ensures r != [] ==> r[0] == Exec(s, 0).value
  {
    CodeBlocksFrom(s, 0)
  }

  /** Every extracted block is well formed. */
  lemma CodeBlocksAreWellFormed(s: string, i: nat)
    requires i < |CodeBlocks(s)|
    ensures WellFormed(s, CodeBlocks(s)[i])
  {
    BlockFound(s, 0, i);
    BlockAtWellFormed(s, CodeBlocks(s)[i].startIndex);
  }

  /** Each block is non-empty and starts no earlier than the one before it ends. */
  predicate InOrder(r: seq<CodeBlock>) {
    && (forall k :: 0 <= k < |r| ==> r[k].startIndex < r[k].endIndex)
    && (forall k :: 0 < k < |r| ==> r[k - 1].endIndex <= r[k].startIndex)
  }

  lemma {:induction false} InOrderTransitive(r: seq<CodeBlock>, i: nat, j: nat)
    requires InOrder(r) && i < j < |r|
    ensures r[i].endIndex <= r[j].startIndex
    decreases j - i
  {
    if i < j - 1 {
      InOrderTransitive(r, i, j - 1);
    }
  }

  lemma CodeBlocksInOrder(s: string, from: nat)
    requires from <= |s|
    ensures InOrder(CodeBlocksFrom(s, from))
  {
    forall k | 0 < k < |CodeBlocksFrom(s, from)|
      ensures CodeBlocksFrom(s, from)[k - 1].endIndex <= CodeBlocksFrom(s, from)[k].startIndex
    {
      BlockFollowsPrevious(s, from, k);
    }
  }

  /**
   * Blocks that follow one another start at strictly increasing indices and
   * do not overlap.
   */
  lemma BlocksAreOrdered(s: string, i: nat, j: nat)
    requires i < j < |CodeBlocks(s)|
    ensures CodeBlocks(s)[i].endIndex <= CodeBlocks(s)[j].startIndex
    ensures CodeBlocks(s)[i].startIndex < CodeBlocks(s)[j].startIndex
  {
    CodeBlocksInOrder(s, 0);
    InOrderTransitive(CodeBlocks(s), i, j);
  }

  /** A text without three consecutive backticks has no code blocks. */
  lemma NoFenceNoBlocks(s: string)
    requires forall m :: 0 <= m <= |s| ==> !FenceAt(s, m)
    ensures CodeBlocks(s) == []
  {
    assert FirstMatch(s, 0).None?;
  }

  /** The `while ((match = re.exec(text)) !== null)` loop of `extractCodeBlocks`. */
  method ExtractCodeBlocks(text: string) returns (blocks: seq<CodeBlock>)
    ensures blocks == CodeBlocks(text)
  {
    blocks := [];
    var lastIndex := 0;
    var found := Exec(text, lastIndex);
    while found.Some?
      invariant lastIndex <= |text|
      invariant found == Exec(text, lastIndex)
      invariant blocks + CodeBlocksFrom(text, lastIndex) == CodeBlocks(text)
      decreases |text| - lastIndex
    {
      CodeBlocksFromStep(text, blocks, lastIndex);
      blocks := blocks + [found.value];
      lastIndex := found.value.endIndex;
      found := Exec(text, lastIndex);
    }
    assert CodeBlocksFrom(text, lastIndex) == [];
    assert blocks + [] == blocks;
  }
}
