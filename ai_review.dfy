/**
 * `formatAiReview`: the review text is cut before every numbered marker with
 * `split(/(?=\d+\.\s)/)`, each piece that opens with `digits.` becomes a
 * numbered section with an alternating colour and its code blocks, and a
 * text with no such piece becomes one fallback section.
 */
module AiReview {
  import opened Wrappers
  import opened JsText
  import CodeFences

  /**
   * The lookahead `(?=\d+\.\s)` succeeds at `q`: digits, a dot, then a `\s`
   * character. A digit cannot be a dot, so only the whole run can be followed
   * by the dot.
   */
  predicate MarkerAt(s: string, q: nat) {
    q < |s| && var d := DigitsEnd(s, q); q < d && d + 1 < |s| && s[d] == '.' && IsSpace(s[d + 1])
  }

  /** `\d+\.\s` read off directly: digits on `[q, d)`, a dot at `d`, a `\s` character after it. */
  predicate DigitsDotSpace(s: string, q: nat, d: nat) {
    q < d && d + 1 < |s| && (forall k :: q <= k < d ==> IsDigit(s[k])) && s[d] == '.' && IsSpace(s[d + 1])
  }

  /** The lookahead succeeds at `q` exactly when some run of digits from `q` is followed by a dot and a `\s` character. */
  lemma MarkerIsDigitsDotSpace(s: string, q: nat, d: nat)
    ensures DigitsDotSpace(s, q, d) ==> MarkerAt(s, q)
    ensures MarkerAt(s, q) ==> DigitsDotSpace(s, q, DigitsEnd(s, q)) && IsDigit(s[q])
  {
    if DigitsDotSpace(s, q, d) {
      DigitsEndAt(s, q, d);
    }
    if MarkerAt(s, q) {
      var e := DigitsEnd(s, q);
      assert IsDigit(s[q]);
      assert DigitsDotSpace(s, q, e);
    }
  }

  /** A marker that starts inside a run of digits is also one a digit later. */
  lemma MarkerInsideRun(s: string, q: nat)
    requires MarkerAt(s, q) && q + 1 < |s| && IsDigit(s[q + 1])
    ensures MarkerAt(s, q + 1)
  {
    DigitsEndInside(s, q, q + 1);
  }

  /** The indices in `[q, |s|)` at which the lookahead succeeds, in increasing order. */
  function CutsFrom(s: string, q: nat): (c: seq<nat>)
    ensures forall k :: 0 <= k < |c| ==> q <= c[k] < |s| && MarkerAt(s, c[k])
    ensures forall i, j :: 0 <= i < j < |c| ==> c[i] < c[j]
    ensures forall m :: q <= m < |s| && MarkerAt(s, m) ==> m in c
    decreases |s| - q
  {
    if q >= |s| then []
    else if MarkerAt(s, q) then [q] + CutsFrom(s, q + 1)
    else CutsFrom(s, q + 1)
  }

  /**
   * Where `split` cuts a non-empty string, with its two ends: a zero-width
   * match is never used at index 0 (it would leave an empty first piece) and
   * is used at every later index where it succeeds, also inside a number.
   */
  function Bounds(s: string): (b: seq<nat>)
    requires s != []
    ensures |b| >= 2 && b[0] == 0 && b[|b| - 1] == |s|
    ensures forall i, j :: 0 <= i < j < |b| ==> b[i] < b[j]
    ensures forall k :: 0 < k < |b| - 1 ==> MarkerAt(s, b[k])
    ensures forall m :: 0 < m < |s| && MarkerAt(s, m) ==> m in b
  {
    var c := CutsFrom(s, 1);
    var b := [0] + c + [|s|];
    BoundsAroundCuts(s, c, b);
    b
  }

  /** Increasing cuts inside the text, with its two ends put around them. */
  lemma BoundsAroundCuts(s: string, c: seq<nat>, b: seq<nat>)
    requires s != [] && b == [0] + c + [|s|]
    requires forall k :: 0 <= k < |c| ==> 1 <= c[k] < |s| && MarkerAt(s, c[k])
    requires forall i, j :: 0 <= i < j < |c| ==> c[i] < c[j]
    requires forall m :: 1 <= m < |s| && MarkerAt(s, m) ==> m in c
    ensures |b| >= 2 && b[0] == 0 && b[|b| - 1] == |s|
    ensures forall i, j :: 0 <= i < j < |b| ==> b[i] < b[j]
    ensures forall k :: 0 < k < |b| - 1 ==> MarkerAt(s, b[k])
    ensures forall m :: 0 < m < |s| && MarkerAt(s, m) ==> m in b
  {
    assert forall k :: 0 < k < |b| - 1 ==> b[k] == c[k - 1];
  }

  /** The slices of `s` between consecutive bounds, from bound `i` on. */
  function SlicesFrom(s: string, b: seq<nat>, i: nat): (ps: seq<string>)
    requires i < |b|
    ensures |ps| == |b| - 1 - i
    decreases |b| - i
  {
    if i + 1 == |b| then [] else [Slice(s, b[i], b[i + 1])] + SlicesFrom(s, b, i + 1)
  }

  lemma {:induction false} SlicesFromAt(s: string, b: seq<nat>, i: nat, k: nat)
    requires i < |b| && k < |b| - 1 - i
    ensures SlicesFrom(s, b, i)[k] == Slice(s, b[i + k], b[i + k + 1])
    decreases k
  {
    var ps := SlicesFrom(s, b, i);
    var rest := SlicesFrom(s, b, i + 1);
    assert ps == [Slice(s, b[i], b[i + 1])] + rest;
    if k > 0 {
      SlicesFromAt(s, b, i + 1, k - 1);
      var j := i + k;
      assert i + 1 + (k - 1) == j && i + 1 + (k - 1) + 1 == j + 1;
      assert ps[k] == rest[k - 1];
    }
  }

  /** `s.split(/(?=\d+\.\s)/)`: the slices between the cuts, or the empty string alone for an empty text. */
  function Pieces(s: string): (ps: seq<string>)
    ensures |ps| >= 1
    ensures s != [] ==> |ps| == |Bounds(s)| - 1
  {
    if s == [] then [s] else SlicesFrom(s, Bounds(s), 0)
  }

  /** Piece `k` is the text between the `k`-th and the next bound, and it is never empty. */
  lemma PieceAt(s: string, k: nat)
    requires s != [] && k < |Pieces(s)|
    ensures Pieces(s)[k] == s[Bounds(s)[k]..Bounds(s)[k + 1]]
    ensures Pieces(s)[k] != []
  {
    var b := Bounds(s);
    SlicesFromAt(s, b, 0, k);
    assert b[k] < b[k + 1];
  }

  /** The strings one after another, as `join("")` gives them. */
  function Concat(ps: seq<string>): string {
    if ps == [] then [] else ps[0] + Concat(ps[1..])
  }

  /** The slices between increasing bounds from bound `i` on, put back together. */
  lemma {:induction false} ConcatSlices(s: string, b: seq<nat>, i: nat)
    requires i < |b|
    requires forall x, y :: 0 <= x < y < |b| ==> b[x] < b[y]
    requires b[|b| - 1] == |s|
    ensures Concat(SlicesFrom(s, b, i)) == s[b[i]..]
    decreases |b| - i
  {
    if i + 1 < |b| {
      ConcatSlices(s, b, i + 1);
      assert SlicesFrom(s, b, i)[1..] == SlicesFrom(s, b, i + 1);
      assert s[b[i]..] == s[b[i]..b[i + 1]] + s[b[i + 1]..];
    }
  }

  /** The pieces put back together give the text. */
  lemma PiecesCoverText(s: string)
    ensures Concat(Pieces(s)) == s
  {
    var ps := Pieces(s);
    if s != [] {
      ConcatSlices(s, Bounds(s), 0);
    } else {
      assert Concat(ps) == s + Concat([]);
    }
  }

  /**
   * Every piece after the first starts where the lookahead succeeds in the
   * text, so with a digit (the piece itself may stop inside the number).
   */
  lemma LaterPiecesOpenWithDigit(s: string, k: nat)
    requires s != [] && 1 <= k < |Pieces(s)|
    ensures MarkerAt(s, Bounds(s)[k])
    ensures Pieces(s)[k] != [] && IsDigit(Pieces(s)[k][0])
  {
    var b := Bounds(s);
    var a := b[k];
    var piece := Pieces(s)[k];
    PieceAt(s, k);
    assert MarkerAt(s, a);
    assert piece[0] == s[a];
  }

  /** If the lookahead also succeeds one index after a cut, the next cut is there. */
  lemma NextCut(s: string, k: nat)
    requires s != [] && k < |Bounds(s)| - 1
    requires Bounds(s)[k] + 1 < |s| && MarkerAt(s, Bounds(s)[k] + 1)
    ensures Bounds(s)[k + 1] == Bounds(s)[k] + 1
  {
    var b := Bounds(s);
    var j :| 0 <= j < |b| && b[j] == b[k] + 1;
    assert k < j;
  }

  /** What `/^(\d+)\.\s*(.*)/s` captures: the number and the text after the spaces. */
  datatype Question = Question(number: nat, content: string)

  function MatchQuestion(piece: string): (r: Option<Question>)
    ensures r.Some? <==> 0 < DigitsEnd(piece, 0) < |piece| && piece[DigitsEnd(piece, 0)] == '.'
    ensures r.Some? ==> |r.value.content| < |piece| - DigitsEnd(piece, 0)
    ensures r.Some? && DigitsEnd(piece, 0) == 1 ==> r.value.number < 10
  {
    var d := DigitsEnd(piece, 0);
    if 0 < d < |piece| && piece[d] == '.' then
      Some(Question(DecimalValue(piece[..d]), piece[SpacesEnd(piece, d + 1)..]))
    else None
  }

  /**
   * The captured content is what follows the dot once the run of `\s` after
   * it is skipped: the text after the dot is blank up to the content, and the
   * content does not start with a blank.
   */
  lemma QuestionContent(piece: string)
    requires MatchQuestion(piece).Some?
    ensures var rest := piece[DigitsEnd(piece, 0) + 1..];
      var content := MatchQuestion(piece).value.content;
      && rest == rest[..|rest| - |content|] + content
      && AllSpace(rest[..|rest| - |content|])
      && (content == [] || !IsSpace(content[0]))
  {
    var d := DigitsEnd(piece, 0);
    var e := SpacesEnd(piece, d + 1);
    assert MatchQuestion(piece).value.content == piece[e..];
    BlankThenContent(piece, d + 1, e);
  }

  /** The text from `i` is a run of blanks ending at `e`, then what follows it. */
  lemma BlankThenContent(s: string, i: nat, e: nat)
    requires i <= e <= |s|
    requires forall k :: i <= k < e ==> IsSpace(s[k])
    requires e < |s| ==> !IsSpace(s[e])
    ensures var rest := s[i..]; var content := s[e..];
      && rest == rest[..|rest| - |content|] + content
      && AllSpace(rest[..|rest| - |content|])
      && (content == [] || !IsSpace(content[0]))
  {
    var rest, gap, content := s[i..], s[i..e], s[e..];
    assert rest[..|rest| - |content|] == gap;
    assert rest == gap + content;
    assert AllSpace(gap) by {
      forall k | 0 <= k < |gap|
        ensures IsSpace(gap[k])
      {
        assert gap[k] == s[i + k];
      }
    }
    assert content != [] ==> content[0] == s[e];
  }

  /** The two heading colours, in the order of the `colors` array. */
  datatype Color = Purple | Emerald

  /** `colors[i]`: an index outside the array gives no colour. */
  function ColorAt(i: int): Option<Color> {
    if i == 0 then Some(Purple) else if i == 1 then Some(Emerald) else None
  }

  /** `colors[(n - 1) % colors.length]` with the sign-keeping `%`. */
  function ColorFor(n: nat): (c: Option<Color>)
    ensures c.None? <==> n == 0
  {
    ColorAt(JsRem(n - 1, 2))
  }

  /** Odd numbers are purple, even numbers from 2 are emerald, and 0 indexes `colors[-1]`, which is undefined. */
  lemma ColorsAlternate(n: nat)
    ensures n % 2 == 1 <==> ColorFor(n) == Some(Purple)
    ensures n % 2 == 0 && n >= 2 <==> ColorFor(n) == Some(Emerald)
    ensures n == 0 <==> ColorFor(n) == None
  {
    if n == 0 {
      assert JsRem(-1, 2) == -1;
    }
  }

  /** A section object; the two optional flags are each set by only one of the two ways of building a section. */
  datatype Section = Section(
    number: nat,
    content: string,
    color: Option<Color>,
    codeBlocks: seq<CodeFences.CodeBlock>,
    hasCodeBlocks: Option<bool>,
    isOptimizedCode: Option<bool>)

  /** The section a piece contributes: none for a blank piece or one without a number. */
  function SectionOf(piece: string): (r: Option<Section>)
    ensures r.Some? <==> !AllSpace(piece) && MatchQuestion(piece).Some?
    ensures r.Some? ==> r.value.number == MatchQuestion(piece).value.number && r.value.content == MatchQuestion(piece).value.content
    ensures r.Some? ==> r.value.color == ColorFor(r.value.number)
    ensures r.Some? ==> r.value.codeBlocks == CodeFences.CodeBlocks(r.value.content)
    ensures r.Some? ==> r.value.hasCodeBlocks == Some(|r.value.codeBlocks| > 0) && r.value.isOptimizedCode == None
  {
    if Trim(piece) == [] then None
    else match MatchQuestion(piece)
      case None => None
      case Some(q) =>
        var blocks := CodeFences.CodeBlocks(q.content);
        Some(Section(q.number, q.content, ColorFor(q.number), blocks, Some(|blocks| > 0), None))
  }

  /** The sections the `forEach` collects from `pieces`, in order. */
  function NumberedSections(pieces: seq<string>): (r: seq<Section>)
    ensures |r| <= |pieces|
  {
    if pieces == [] then []
    else
      var last := pieces[|pieces| - 1];
      NumberedSections(pieces[..|pieces| - 1]) + (if SectionOf(last).Some? then [SectionOf(last).value] else [])
  }

  /** One more piece adds its section, if it has one, at the end. */
  lemma NumberedSectionsStep(pieces: seq<string>, i: nat)
    requires i < |pieces|
    ensures NumberedSections(pieces[..i + 1])
         == NumberedSections(pieces[..i]) + (if SectionOf(pieces[i]).Some? then [SectionOf(pieces[i]).value] else [])
  {
    assert pieces[..i + 1][..i] == pieces[..i];
  }

  /** Every collected section is the section of one of the pieces. */
  lemma {:induction false} SectionsComeFromPieces(pieces: seq<string>, i: nat)
    requires i < |NumberedSections(pieces)|
    ensures exists k :: 0 <= k < |pieces| && SectionOf(pieces[k]) == Some(NumberedSections(pieces)[i])
  {
    var front := pieces[..|pieces| - 1];
    var last := pieces[|pieces| - 1];
    var r := NumberedSections(pieces);
    var head := NumberedSections(front);
    var tail := if SectionOf(last).Some? then [SectionOf(last).value] else [];
    assert r == head + tail;
    if i < |head| {
      SectionsComeFromPieces(front, i);
      var k :| 0 <= k < |front| && SectionOf(front[k]) == Some(head[i]);
      assert pieces[k] == front[k] && r[i] == head[i];
    } else {
      assert r[i] == tail[0] && SectionOf(last) == Some(tail[0]);
      assert SectionOf(pieces[|pieces| - 1]) == Some(r[i]);
    }
  }

  /** The section made when no piece is numbered. */
  function Fallback(text: string): (r: Section)
    ensures r.number == 1 && r.color == ColorFor(1) && r.content == text
    ensures r.codeBlocks == CodeFences.CodeBlocks(text) && r.isOptimizedCode == Some(true)
  {
    Section(1, text, ColorAt(0), CodeFences.CodeBlocks(text), None, Some(true))
  }

  /**
   * `formatAiReview(text)` as a value: `null` for absent or empty text, the
   * numbered sections when there are any, and otherwise the one fallback
   * section, numbered 1, purple, holding the whole text and flagged as
   * optimised code.
   */
  function ReviewSections(text: Option<string>): (r: Option<seq<Section>>)
    ensures r.None? <==> text.None? || text == Some([])
    ensures r.Some? ==> |r.value| >= 1
    ensures r.Some? && NumberedSections(Pieces(text.value)) == [] ==>
      && |r.value| == 1 && r.value[0].number == 1 && r.value[0].content == text.value
      && r.value[0].color == Some(Purple) && r.value[0].isOptimizedCode == Some(true)
      && r.value[0].codeBlocks == CodeFences.CodeBlocks(text.value)
    ensures r.Some? && NumberedSections(Pieces(text.value)) != [] ==> r.value == NumberedSections(Pieces(text.value))
  {
    if text.None? || text.value == [] then None
    else
      var sections := NumberedSections(Pieces(text.value));
      if sections == [] then Some([Fallback(text.value)]) else Some(sections)
  }

  /** Unless the fallback was taken, every section of the review is the section of one piece of the text. */
  lemma ReviewSectionFromPiece(text: string, i: nat)
    requires NumberedSections(Pieces(text)) != []
    requires ReviewSections(Some(text)).Some? && i < |ReviewSections(Some(text)).value|
    ensures exists k :: 0 <= k < |Pieces(text)| && SectionOf(Pieces(text)[k]) == Some(ReviewSections(Some(text)).value[i])
  {
    SectionsComeFromPieces(Pieces(text), i);
  }

  /**
   * A piece that starts at a marker and is numbered carries a one-digit
   * number: a longer run of digits would have been cut again one digit
   * later, leaving a piece of one digit and no dot.
   */
  lemma PieceNumberIsOneDigit(s: string, k: nat)
    requires s != [] && k < |Pieces(s)|
    requires MarkerAt(s, Bounds(s)[k])
    requires MatchQuestion(Pieces(s)[k]).Some?
    ensures MatchQuestion(Pieces(s)[k]).value.number < 10
  {
    var b := Bounds(s);
    var piece := Pieces(s)[k];
    var a := b[k];
    PieceAt(s, k);
    var d := DigitsEnd(piece, 0);
    if d >= 2 {
      assert IsDigit(piece[1]);
      assert s[a + 1] == piece[1];
      MarkerInsideRun(s, a);
      NextCut(s, k);
    }
  }

  /** Sections cut at a marker, that is all but one cut from the text's start, have one-digit numbers. */
  lemma LaterSectionsHaveOneDigit(s: string, k: nat)
    requires s != [] && 1 <= k < |Pieces(s)|
    requires SectionOf(Pieces(s)[k]).Some?
    ensures SectionOf(Pieces(s)[k]).value.number < 10
  {
    PieceNumberIsOneDigit(s, k);
  }

  /** When the text itself opens with a marker, every numbered section has a one-digit number. */
  lemma AllSectionsHaveOneDigit(s: string, i: nat)
    requires MarkerAt(s, 0)
    requires i < |NumberedSections(Pieces(s))|
    ensures NumberedSections(Pieces(s))[i].number < 10
  {
    SectionsComeFromPieces(Pieces(s), i);
    var k :| 0 <= k < |Pieces(s)| && SectionOf(Pieces(s)[k]) == Some(NumberedSections(Pieces(s))[i]);
    PieceNumberIsOneDigit(s, k);
  }

  lemma BoundsOfTwelveDotSpace()
    ensures Bounds("12. x") == [0, 1, 5]
  {
    var s := "12. x";
    assert DigitsEnd(s, 1) == 2;
    assert MarkerAt(s, 1);
    assert !MarkerAt(s, 2) && !MarkerAt(s, 3) && !MarkerAt(s, 4);
    assert CutsFrom(s, 5) == [];
    assert CutsFrom(s, 1) == [1];
  }

  lemma PiecesOfTwelveDotSpace()
    ensures Pieces("12. x") == ["1", "2. x"]
  {
    var s := "12. x";
    BoundsOfTwelveDotSpace();
    var b := Bounds(s);
    assert Slice(s, 0, 1) == "1" && Slice(s, 1, 5) == "2. x";
    assert SlicesFrom(s, b, 1) == ["2. x"] + SlicesFrom(s, b, 2);
  }

  lemma SectionOfTwoDotSpace()
    ensures SectionOf("1") == None
    ensures SectionOf("2. x").Some? && SectionOf("2. x").value.number == 2 && SectionOf("2. x").value.content == "x"
  {
    assert DigitsEnd("1", 0) == 1;
    assert DigitsEnd("2. x", 0) == 1;
    assert SpacesEnd("2. x", 2) == 3;
    assert "2. x"[..1] == "2";
    assert DecimalValue("2") == 2;
    assert MatchQuestion("2. x") == Some(Question(2, "x"));
    assert !AllSpace("2. x");
  }

  /** `"12. x"`: the split also cuts before the `2`, the piece `"1"` is dropped, and the section is numbered 2. */
  lemma SplitInsideNumber()
    ensures var r := ReviewSections(Some("12. x"));
      r.Some? && |r.value| == 1 && r.value[0].number == 2 && r.value[0].content == "x"
  {
    SectionOfTwoDotSpace();
    SectionsOfTwelveDotSpace();
  }

  lemma SectionsOfTwelveDotSpace()
    ensures SectionOf("2. x").Some? && NumberedSections(Pieces("12. x")) == [SectionOf("2. x").value]
  {
    PiecesOfTwelveDotSpace();
    SectionOfTwoDotSpace();
    DroppedThenNumbered("1", "2. x");
  }

  /** Two pieces of which only the second is numbered give that one section. */
  lemma DroppedThenNumbered(a: string, b: string)
    requires SectionOf(a).None? && SectionOf(b).Some?
    ensures NumberedSections([a, b]) == [SectionOf(b).value]
  {
    var ps := [a, b];
    assert ps[..0] == [] && ps[..2] == ps;
    NumberedSectionsStep(ps, 0);
    NumberedSectionsStep(ps, 1);
  }

  lemma BoundsOfTenDotSpace()
    ensures Bounds("10. x") == [0, 1, 5]
  {
    var s := "10. x";
    assert DigitsEnd(s, 1) == 2;
    assert MarkerAt(s, 1);
    assert !MarkerAt(s, 2) && !MarkerAt(s, 3) && !MarkerAt(s, 4);
    assert CutsFrom(s, 5) == [];
    assert CutsFrom(s, 1) == [1];
  }

  lemma PiecesOfTenDotSpace()
    ensures Pieces("10. x") == ["1", "0. x"]
  {
    var s := "10. x";
    BoundsOfTenDotSpace();
    var b := Bounds(s);
    assert Slice(s, 0, 1) == "1" && Slice(s, 1, 5) == "0. x";
    assert SlicesFrom(s, b, 1) == ["0. x"] + SlicesFrom(s, b, 2);
  }

  lemma SectionOfZeroDotSpace()
    ensures SectionOf("1") == None
    ensures SectionOf("0. x").Some? && SectionOf("0. x").value.number == 0 && SectionOf("0. x").value.content == "x"
  {
    assert DigitsEnd("1", 0) == 1;
    assert DigitsEnd("0. x", 0) == 1;
    assert SpacesEnd("0. x", 2) == 3;
    assert "0. x"[..1] == "0";
    assert DecimalValue("0") == 0;
    assert MatchQuestion("0. x") == Some(Question(0, "x"));
    assert !AllSpace("0. x");
  }

  /**
   * `"10. x"`: the split cuts before the `0`, so the one section is numbered
   * 0 and has no colour, the value the page then fails to read a class from.
   */
  lemma TenthItemHasNoColour()
    ensures var r := ReviewSections(Some("10. x"));
      r.Some? && |r.value| == 1 && r.value[0].number == 0 && r.value[0].content == "x" && r.value[0].color.None?
  {
    SectionOfZeroDotSpace();
    SectionsOfTenDotSpace();
  }

  lemma SectionsOfTenDotSpace()
    ensures SectionOf("0. x").Some? && NumberedSections(Pieces("10. x")) == [SectionOf("0. x").value]
  {
    PiecesOfTenDotSpace();
    SectionOfZeroDotSpace();
    DroppedThenNumbered("1", "0. x");
  }

  lemma PiecesOfTwelveDotX()
    ensures Pieces("12.x") == ["12.x"]
  {
    var s := "12.x";
    assert !MarkerAt(s, 1) && !MarkerAt(s, 2) && !MarkerAt(s, 3);
    assert CutsFrom(s, 1) == [];
    var b := Bounds(s);
    assert b == [0, 4];
    assert Slice(s, 0, 4) == s;
    assert SlicesFrom(s, b, 0) == [s] + SlicesFrom(s, b, 1);
  }

  lemma SectionOfTwelveDotX()
    ensures SectionOf("12.x").Some? && SectionOf("12.x").value.number == 12 && SectionOf("12.x").value.content == "x"
  {
    var s := "12.x";
    assert DigitsEnd(s, 0) == 2;
    assert SpacesEnd(s, 3) == 3;
    assert s[..2] == "12" && "12"[..1] == "1";
    assert DecimalValue("12") == 12;
    assert MatchQuestion(s) == Some(Question(12, "x"));
    assert !AllSpace(s);
  }

  /** `"12.x"`: without a blank after the dot nothing is cut and the section is numbered 12. */
  lemma NoCutWithoutBlank()
    ensures var r := ReviewSections(Some("12.x"));
      r.Some? && |r.value| == 1 && r.value[0].number == 12 && r.value[0].content == "x"
  {
    SectionOfTwelveDotX();
    SectionsOfTwelveDotX();
  }

  lemma SectionsOfTwelveDotX()
    ensures SectionOf("12.x").Some? && NumberedSections(Pieces("12.x")) == [SectionOf("12.x").value]
  {
    PiecesOfTwelveDotX();
    SectionOfTwelveDotX();
    OnlyNumbered("12.x");
  }

  /** A single numbered piece gives its one section. */
  lemma OnlyNumbered(a: string)
    requires SectionOf(a).Some?
    ensures NumberedSections([a]) == [SectionOf(a).value]
  {
    var ps := [a];
    assert ps[..0] == [] && ps[..1] == ps;
    NumberedSectionsStep(ps, 0);
  }

  /** The `forEach` over the pieces and the fallback of `formatAiReview`. */
  method FormatAiReview(text: Option<string>) returns (sections: Option<seq<Section>>)
    ensures sections == ReviewSections(text)
  {
    if text.None? || text.value == [] {
      return None;
    }
    var pieces := Pieces(text.value);
    var formatted: seq<Section> := [];
    for i := 0 to |pieces|
      invariant formatted == NumberedSections(pieces[..i])
    {
      NumberedSectionsStep(pieces, i);
      var piece := pieces[i];
      if Trim(piece) != [] {
        var question := MatchQuestion(piece);
        if question.Some? {
          var blocks := CodeFences.ExtractCodeBlocks(question.value.content);
          var n := question.value.number;
          var section := Section(n, question.value.content, ColorFor(n), blocks, Some(|blocks| > 0), None);
          assert SectionOf(piece) == Some(section);
          formatted := formatted + [section];
        }
      }
    }
    assert pieces[..|pieces|] == pieces;
    if formatted == [] {
      var blocks := CodeFences.ExtractCodeBlocks(text.value);
      formatted := [Section(1, text.value, ColorAt(0), blocks, None, Some(true))];
    }
    sections := Some(formatted);
  }
}
