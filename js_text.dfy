/**
 * The pieces of ECMAScript string behaviour the core relies on: the character
 * classes `\s`, `\d`, `\w` and `.`, `String.prototype.trim`, `split` with a
 * one-character separator, `slice`, `parseInt` on a digit string and the `%`
 * operator, which keeps the sign of the dividend.
 */
module JsText {

  /** LineTerminator code points: the characters `.` does not match without the `s` flag. */
  predicate IsLineTerminator(c: char) {
    c == '\n' || c == '\r' || c == '\U{2028}' || c == '\U{2029}'
  }

  /** WhiteSpace and LineTerminator code points: the class `\s`, and what `trim` removes. */
  predicate IsSpace(c: char) {
    || IsLineTerminator(c)
    || c == '\t' || c == '\U{000B}' || c == '\U{000C}' || c == ' '
    || c == '\U{00A0}' || c == '\U{1680}' || ('\U{2000}' <= c <= '\U{200A}')
    || c == '\U{202F}' || c == '\U{205F}' || c == '\U{3000}' || c == '\U{FEFF}'
  }

  /** The class `\d`. */
  predicate IsDigit(c: char) {
    '0' <= c <= '9'
  }

  /** The class `\w`. */
  predicate IsWordChar(c: char) {
    ('a' <= c <= 'z') || ('A' <= c <= 'Z') || IsDigit(c) || c == '_'
  }

  predicate AllSpace(s: string) {
    forall k :: 0 <= k < |s| ==> IsSpace(s[k])
  }

  /** `d` occurs in `s` starting at index `m`. */
  predicate OccursAt(s: string, m: nat, d: string) {
    m + |d| <= |s| && s[m..m + |d|] == d
  }

  /** End of the longest run of `\s` starting at `i` (what a greedy `\s*` consumes). */
  function SpacesEnd(s: string, i: nat): (e: nat)
    requires i <= |s|
    ensures i <= e <= |s|
    ensures forall k {:trigger IsSpace(s[k])} :: i <= k < e ==> IsSpace(s[k])
    ensures e == |s| || !IsSpace(s[e])
    decreases |s| - i
  {
    if i < |s| && IsSpace(s[i]) then SpacesEnd(s, i + 1) else i
  }

  /** End of the longest run of `\d` starting at `i` (what a greedy `\d*` consumes). */
  function DigitsEnd(s: string, i: nat): (e: nat)
    requires i <= |s|
    ensures i <= e <= |s|
    ensures forall k {:trigger IsDigit(s[k])} :: i <= k < e ==> IsDigit(s[k])
    ensures e == |s| || !IsDigit(s[e])
    decreases |s| - i
  {
    if i < |s| && IsDigit(s[i]) then DigitsEnd(s, i + 1) else i
  }

  /** Starting inside a run of digits does not move the end of the run. */
  lemma {:induction false} DigitsEndInside(s: string, i: nat, m: nat)
    requires i <= |s| && i <= m <= DigitsEnd(s, i)
    ensures DigitsEnd(s, m) == DigitsEnd(s, i)
    decreases m - i
  {
    if m > i {
      DigitsEndInside(s, i + 1, m);
    }
  }

  /** A run of `\s` from `i` that stops at `e` is what the greedy `\s*` consumes. */
  lemma SpacesEndAt(s: string, i: nat, e: nat)
    requires i <= e <= |s|
    requires forall k :: i <= k < e ==> IsSpace(s[k])
    requires e == |s| || !IsSpace(s[e])
    ensures SpacesEnd(s, i) == e
  {
  }

  /** A run of digits from `i` that stops before a non-digit at `d` ends at `d`. */
  lemma {:induction false} DigitsEndAt(s: string, i: nat, d: nat)
    requires i <= d < |s| && !IsDigit(s[d])
    requires forall k :: i <= k < d ==> IsDigit(s[k])
    ensures DigitsEnd(s, i) == d
    decreases d - i
  {
    if i < d {
      DigitsEndAt(s, i + 1, d);
    }
  }

  /** Number of leading `\s` characters. */
  function LeadingSpaces(s: string): (n: nat)
    ensures n <= |s|
    ensures forall k {:trigger IsSpace(s[k])} :: 0 <= k < n ==> IsSpace(s[k])
    ensures n < |s| ==> !IsSpace(s[n])
  {
    SpacesEnd(s, 0)
  }

  /** Start of the longest run of `\s` that ends at `j`, scanning backwards. */
  function SpacesBefore(s: string, j: nat): (b: nat)
    requires j <= |s|
    ensures b <= j
    ensures forall k {:trigger IsSpace(s[k])} :: b <= k < j ==> IsSpace(s[k])
    ensures b > 0 ==> !IsSpace(s[b - 1])
    decreases j
  {
    if j > 0 && IsSpace(s[j - 1]) then SpacesBefore(s, j - 1) else j
  }

  /**
   * `String.prototype.trim`: the result is empty exactly for a blank input,
   * and otherwise neither starts nor ends with white space.
   */
  function Trim(s: string): (r: string)
    ensures AllSpace(s) <==> r == []
    ensures r != [] ==> !IsSpace(r[0]) && !IsSpace(r[|r| - 1])
  {
    var a := LeadingSpaces(s);
    if a == |s| then []
    else
      var b := SpacesBefore(s, |s|);
      assert a < b by {
        assert !IsSpace(s[a]);
      }
      s[a..b]
  }

  /** The input of `trim` is its result framed by two runs of white space. */
  lemma TrimIsInnerSlice(s: string)
    ensures LeadingSpaces(s) + |Trim(s)| <= |s|
    ensures Trim(s) == s[LeadingSpaces(s)..LeadingSpaces(s) + |Trim(s)|]
    ensures AllSpace(s[..LeadingSpaces(s)]) && AllSpace(s[LeadingSpaces(s) + |Trim(s)|..])
  {
    var a := LeadingSpaces(s);
    var r := Trim(s);
    if a < |s| {
      var b := SpacesBefore(s, |s|);
      assert r == s[a..b] && a + |r| == b;
      FramedBySpaces(s, a, b);
    } else {
      assert r == [];
      FramedBySpaces(s, a, a);
    }
  }

  /** Spaces before `a` and from `b` on make both outer slices blank. */
  lemma FramedBySpaces(s: string, a: nat, b: nat)
    requires a <= b <= |s|
    requires forall k :: 0 <= k < a ==> IsSpace(s[k])
    requires forall k :: b <= k < |s| ==> IsSpace(s[k])
    ensures AllSpace(s[..a]) && AllSpace(s[b..])
  {
  }

  /** `s.slice(start, end)` for non-negative arguments: both are clamped to the length. */
  function Slice(s: string, start: nat, end: nat): (r: string)
    ensures start <= end <= |s| ==> r == s[start..end]
    ensures end <= start || |s| <= start ==> r == []
  {
    var from := if start < |s| then start else |s|;
    var to := if end < |s| then end else |s|;
    if from < to then s[from..to] else []
  }

  /** The pieces joined back together with `c` between neighbours. */
  function JoinWith(parts: seq<string>, c: char): string
    requires |parts| >= 1
  {
    if |parts| == 1 then parts[0] else parts[0] + [c] + JoinWith(parts[1..], c)
  }

  /**
   * `s.split(c)` for a one-character separator: the pieces between the
   * occurrences of `c`. The first piece is what precedes the first `c`;
   * `SplitOnJoins` gives the rest back.
   */
  function SplitOn(s: string, c: char): (parts: seq<string>)
    ensures |parts| >= 1
    ensures parts[0] <= s && c !in parts[0]
    ensures |parts[0]| < |s| ==> s[|parts[0]|] == c
  {
    if |s| == 0 then [[]]
    else
      var rest := SplitOn(s[1..], c);
      if s[0] == c then [[]] + rest
      else [[s[0]] + rest[0]] + rest[1..]
  }

  /** No piece holds the separator, and joining the pieces with it gives `s` back. */
  lemma {:induction false} SplitOnJoins(s: string, c: char)
    ensures forall k :: 0 <= k < |SplitOn(s, c)| ==> c !in SplitOn(s, c)[k]
    ensures JoinWith(SplitOn(s, c), c) == s
  {
    if |s| > 0 {
      var rest := SplitOn(s[1..], c);
      var parts := SplitOn(s, c);
      SplitOnJoins(s[1..], c);
      if s[0] == c {
        assert parts[1..] == rest;
        assert s == [] + [c] + s[1..];
      } else {
        assert parts[1..] == rest[1..];
        assert forall k :: 1 <= k < |parts| ==> parts[k] == rest[k];
        JoinWithCons(s[0], rest, c);
        assert s == [s[0]] + s[1..];
      }
    }
  }

  /** Putting a character in front of the first piece puts it in front of the joined text. */
  lemma JoinWithCons(ch: char, rest: seq<string>, c: char)
    requires |rest| >= 1
    ensures JoinWith([[ch] + rest[0]] + rest[1..], c) == [ch] + JoinWith(rest, c)
  {
    var parts := [[ch] + rest[0]] + rest[1..];
    assert parts[1..] == rest[1..];
    if |rest| > 1 {
      assert rest == [rest[0]] + rest[1..];
    }
  }

  /** The first piece of `split(c)` is what precedes the first `c`. */
  lemma {:induction false} SplitOnHead(x: string, y: string, c: char)
    requires c !in x
    ensures SplitOn(x + [c] + y, c)[0] == x
  {
    if |x| > 0 {
      assert (x + [c] + y)[1..] == x[1..] + [c] + y;
      SplitOnHead(x[1..], y, c);
      assert x == [x[0]] + x[1..];
    } else {
      assert x + [c] + y == [c] + y;
    }
  }

  /** A string without `c` splits into itself alone. */
  lemma {:induction false} SplitOnAbsent(x: string, c: char)
    requires c !in x
    ensures SplitOn(x, c) == [x]
  {
    if |x| > 0 {
      SplitOnAbsent(x[1..], c);
      assert x == [x[0]] + x[1..];
    }
  }

  /** Splitting at a separator in the middle splits the two sides apart. */
  lemma {:induction false} SplitOnConcat(x: string, y: string, c: char)
    ensures SplitOn(x + [c] + y, c) == SplitOn(x, c) + SplitOn(y, c)
  {
    var s := x + [c] + y;
    var ys := SplitOn(y, c);
    if x == [] {
      assert s[1..] == y;
    } else {
      var tail := SplitOn(x[1..], c);
      assert s[0] == x[0];
      assert SplitOn(s[1..], c) == tail + ys by {
        assert s[1..] == x[1..] + [c] + y;
        SplitOnConcat(x[1..], y, c);
      }
      if x[0] != c {
        SplitOnConsStep(x[0], tail, ys);
      } else {
        assert [[]] + (tail + ys) == ([[]] + tail) + ys;
      }
    }
  }

  /** The regrouping step of `SplitOnConcat` when the first character is not the separator. */
  lemma SplitOnConsStep(ch: char, tail: seq<string>, ys: seq<string>)
    requires |tail| >= 1
    ensures [[ch] + (tail + ys)[0]] + (tail + ys)[1..] == ([[ch] + tail[0]] + tail[1..]) + ys
  {
    assert (tail + ys)[1..] == tail[1..] + ys;
  }

  /** Joining one more piece adds the separator and the piece. */
  lemma {:induction false} JoinWithSnoc(parts: seq<string>, last: string, c: char)
    requires |parts| >= 1
    ensures JoinWith(parts + [last], c) == JoinWith(parts, c) + [c] + last
    decreases |parts|
  {
    var whole := parts + [last];
    assert whole[0] == parts[0];
    if |parts| == 1 {
      assert whole[1..] == [last];
    } else {
      assert whole[1..] == parts[1..] + [last];
      JoinWithSnoc(parts[1..], last, c);
    }
  }

  /** The value of a decimal digit string (what `parseInt` yields for one). */
  function DecimalValue(ds: string): (n: nat)
    requires forall k :: 0 <= k < |ds| ==> IsDigit(ds[k])
    ensures |ds| <= 1 ==> n < 10
  {
    if |ds| == 0 then 0
    else 10 * DecimalValue(ds[..|ds| - 1]) + DigitValue(ds[|ds| - 1])
  }

  function DigitValue(c: char): (v: nat)
    requires IsDigit(c)
    ensures v < 10
  {
    c as int - '0' as int
  }

  /**
   * The `%` operator of ECMAScript on integers: the remainder of the division
   * truncated toward zero, so its sign is that of the dividend.
   */
  function JsRem(a: int, b: nat): (r: int)
    requires b > 0
    ensures a >= 0 ==> 0 <= r < b
    ensures a <= 0 ==> 0 - b < r <= 0
  {
    if a >= 0 then a % b else -((-a) % b)
  }
}
