/**
 * `cleanMarkdownText`: a chain of global regular-expression replacements that
 * strips emphasis, inline code, heading hashes and list markers, followed by
 * `trim`. Each replacement is a scanner over the original string that tries a
 * match at every index from left to right and resumes after each match, as a
 * global `replace` does.
 */
module Markdown {
  import opened Wrappers
  import opened JsText

  /**
   * `r` is `s` with some of its characters deleted: every character `r` keeps
   * comes from `s`, in the order it has there.
   */
  predicate Subsequence(r: string, s: string)
    decreases |s|
  {
    if s == [] then r == []
    else Subsequence(r, s[1..]) || (r != [] && r[0] == s[0] && Subsequence(r[1..], s[1..]))
  }

  /** Order and multiplicity count: swapping or repeating characters is not a deletion. */
  lemma SubsequenceKeepsOrder()
    ensures !Subsequence("ba", "ab") && !Subsequence("aa", "a")
  {
    assert "ab"[1..] == "b" && "b"[1..] == [] && "ba"[1..] == "a";
    assert "a"[1..] == [] && "aa"[1..] == "a";
  }

  /** A character that is not in `s` is not in anything drawn from `s`. */
  lemma {:induction false} AbsentStaysAbsent(r: string, s: string, c: char)
    requires Subsequence(r, s) && c !in s
    ensures c !in r
    decreases |s|
  {
    if s != [] {
      assert c !in s[1..] by {
        assert forall k :: 0 <= k < |s[1..]| ==> s[1..][k] == s[k + 1];
      }
      if Subsequence(r, s[1..]) {
        AbsentStaysAbsent(r, s[1..], c);
      } else {
        AbsentStaysAbsent(r[1..], s[1..], c);
        assert r == [r[0]] + r[1..];
      }
    }
  }

  /** Deleting nothing. */
  lemma {:induction false} SubsequenceOfItself(s: string)
    ensures Subsequence(s, s)
    decreases |s|
  {
    if s != [] {
      SubsequenceOfItself(s[1..]);
    }
  }

  /** Deleting everything. */
  lemma {:induction false} EmptySubsequence(s: string)
    ensures Subsequence([], s)
    decreases |s|
  {
    if s != [] {
      EmptySubsequence(s[1..]);
    }
  }

  lemma {:induction false} SubsequenceTransitive(r: string, t: string, s: string)
    requires Subsequence(r, t) && Subsequence(t, s)
    ensures Subsequence(r, s)
    decreases |s|
  {
    if s != [] {
      if Subsequence(t, s[1..]) {
        SubsequenceTransitive(r, t, s[1..]);
      } else if Subsequence(r, t[1..]) {
        SubsequenceTransitive(r, t[1..], s[1..]);
      } else {
        SubsequenceTransitive(r[1..], t[1..], s[1..]);
      }
    }
  }

  /** Deletions in two texts are deletions in their concatenation. */
  lemma {:induction false} SubsequenceAppend(a: string, s1: string, b: string, s2: string)
    requires Subsequence(a, s1) && Subsequence(b, s2)
    ensures Subsequence(a + b, s1 + s2)
    decreases |s1|
  {
    if s1 == [] {
      assert a == [];
      assert a + b == b && s1 + s2 == s2;
    } else {
      assert (s1 + s2)[1..] == s1[1..] + s2;
      if Subsequence(a, s1[1..]) {
        SubsequenceAppend(a, s1[1..], b, s2);
      } else {
        SubsequenceAppend(a[1..], s1[1..], b, s2);
        assert (a + b)[1..] == a[1..] + b;
      }
    }
  }

  /** What is drawn from a later suffix is drawn from an earlier one. */
  lemma SuffixSubsequence(s: string, e: nat, i: nat, r: string)
    requires i <= e <= |s| && Subsequence(r, s[e..])
    ensures Subsequence(r, s[i..])
  {
    EmptySubsequence(s[i..e]);
    SubsequenceAppend([], s[i..e], r, s[e..]);
    assert [] + r == r;
    assert s[i..e] + s[e..] == s[i..];
  }

  /** A slice of `s[i..]` is drawn from `s[i..]`. */
  lemma SliceSubsequence(s: string, a: nat, b: nat, i: nat)
    requires i <= a <= b <= |s|
    ensures Subsequence(s[a..b], s[i..])
  {
    SubsequenceOfItself(s[a..b]);
    EmptySubsequence(s[b..]);
    SubsequenceAppend(s[a..b], s[a..b], [], s[b..]);
    assert s[a..b] + [] == s[a..b];
    assert s[a..b] + s[b..] == s[a..];
    SuffixSubsequence(s, a, i, s[a..b]);
  }

  /** A slice of `s[i..e]` followed by what is drawn from `s[e..]` is drawn from `s[i..]`. */
  lemma PieceThenRest(s: string, i: nat, a: nat, b: nat, e: nat, rest: string)
    requires i <= a <= b <= e <= |s| && Subsequence(rest, s[e..])
    ensures Subsequence(s[a..b] + rest, s[i..])
  {
    var p := s[..e];
    SliceSubsequence(p, a, b, i);
    assert p[a..b] == s[a..b] && p[i..] == s[i..e];
    SubsequenceAppend(s[a..b], s[i..e], rest, s[e..]);
    assert s[i..e] + s[e..] == s[i..];
  }

  /** The same when the piece is the one character `s[i]`. */
  lemma CopyThenRest(s: string, i: nat, rest: string)
    requires i < |s| && Subsequence(rest, s[i + 1..])
    ensures Subsequence([s[i]] + rest, s[i..])
  {
    PieceThenRest(s, i, i, i + 1, i + 1, rest);
    assert s[i..i + 1] == [s[i]];
  }

  /**
   * Where the lazy `(.*?)` that follows an opening delimiter stops: the
   * nearest index `k >= j` at which `d` occurs again with no line terminator
   * in `s[j..k]`, since `.` does not match one.
   */
  function CloseFrom(s: string, j: nat, d: string): (k: Option<nat>)
    requires j <= |s| && d != []
    ensures k.Some? ==> j <= k.value && k.value + |d| <= |s|
    decreases |s| - j
  {
    if j + |d| > |s| then None
    else if OccursAt(s, j, d) then Some(j)
    else if IsLineTerminator(s[j]) then None
    else CloseFrom(s, j + 1, d)
  }

  /**
   * The stop is the nearest repetition: nothing before it is a line
   * terminator or a repetition, and when there is no stop every repetition
   * lies beyond a line terminator.
   */
  lemma {:induction false} CloseFromIsNearest(s: string, j: nat, d: string)
    requires j <= |s| && d != []
    ensures CloseFrom(s, j, d).Some? ==> OccursAt(s, CloseFrom(s, j, d).value, d)
    ensures CloseFrom(s, j, d).Some? ==>
      forall m :: j <= m < CloseFrom(s, j, d).value ==> !IsLineTerminator(s[m]) && !OccursAt(s, m, d)
    ensures CloseFrom(s, j, d).None? ==>
      forall m :: j <= m <= |s| && OccursAt(s, m, d) ==> exists t :: j <= t < m && IsLineTerminator(s[t])
    decreases |s| - j
  {
    if j + |d| <= |s| && !OccursAt(s, j, d) && !IsLineTerminator(s[j]) {
      CloseFromIsNearest(s, j + 1, d);
      if CloseFrom(s, j, d).None? {
        forall m | j <= m <= |s| && OccursAt(s, m, d)
          ensures exists t :: j <= t < m && IsLineTerminator(s[t])
        {
          assert m != j;
          var t :| j + 1 <= t < m && IsLineTerminator(s[t]);
        }
      }
    }
  }

  /**
   * `s.replace(/D(.*?)D/g, '$1')` from index `i`, for the delimiter `D`: each
   * delimited run on one line is replaced by its inside.
   */
  function StripDelimited(s: string, d: string, i: nat): (r: string)
    requires i <= |s| && d != []
    ensures |r| <= |s| - i
    decreases |s| - i
  {
    if i == |s| then [] else DelimitedKept(s, d, i) + StripDelimited(s, d, DelimitedResume(s, d, i))
  }

  /** A delimited run on one line starts at index `i`. */
  predicate RunAt(s: string, d: string, i: nat)
    requires i <= |s| && d != []
  {
    OccursAt(s, i, d) && CloseFrom(s, i + |d|, d).Some?
  }

  /** What one step of the scan at index `i` emits: the inside of a run, or the character itself. */
  function DelimitedKept(s: string, d: string, i: nat): (r: string)
    requires i < |s| && d != []
    ensures |r| <= DelimitedResume(s, d, i) - i
  {
    if RunAt(s, d, i) then s[i + |d|..CloseFrom(s, i + |d|, d).value] else [s[i]]
  }

  /** Where the scan resumes after index `i`: past the closing delimiter of a run, or at the next character. */
  function DelimitedResume(s: string, d: string, i: nat): (e: nat)
    requires i < |s| && d != []
    ensures i < e <= |s|
  {
    if RunAt(s, d, i) then CloseFrom(s, i + |d|, d).value + |d| else i + 1
  }

  /** What one step keeps, followed by what is drawn from the rest of the scan, is drawn from `s[i..]`. */
  lemma KeptThenRest(s: string, d: string, i: nat, rest: string)
    requires i < |s| && d != [] && Subsequence(rest, s[DelimitedResume(s, d, i)..])
    ensures Subsequence(DelimitedKept(s, d, i) + rest, s[i..])
  {
    if RunAt(s, d, i) {
      PieceThenRest(s, i, i + |d|, CloseFrom(s, i + |d|, d).value, DelimitedResume(s, d, i), rest);
    } else {
      CopyThenRest(s, i, rest);
    }
  }

  /** The replacement only deletes: what it keeps is `s[i..]` with characters removed, in order. */
  lemma {:induction false} DelimitedDeletesOnly(s: string, d: string, i: nat)
    requires i <= |s| && d != []
    ensures Subsequence(StripDelimited(s, d, i), s[i..])
    decreases |s| - i
  {
    if i < |s| {
      var e := DelimitedResume(s, d, i);
      var rest := StripDelimited(s, d, e);
      DelimitedDeletesOnly(s, d, e);
      KeptThenRest(s, d, i, rest);
    }
  }

  /** The lazy `(.*?)` stops at the first closing delimiter on the same line. */
  lemma CloseFromFirst(s: string, j: nat, d: string, k: nat)
    requires j <= k && d != [] && OccursAt(s, k, d)
    requires forall m :: j <= m < k ==> !IsLineTerminator(s[m]) && !OccursAt(s, m, d)
    ensures CloseFrom(s, j, d) == Some(k)
  {
    CloseFromIsNearest(s, j, d);
  }

  /** One kept character followed by the kept text after it. */
  lemma Regroup(s: string, i: nat, j: nat, whole: string, tail: string, rest: string)
    requires i < j <= |s|
    requires whole == [s[i]] + tail && tail == s[i + 1..j] + rest
    ensures whole == s[i..j] + rest
  {
    assert s[i..j] == [s[i]] + s[i + 1..j];
  }

  /** A character other than the delimiter's first is copied. */
  lemma DelimitedKeepsChar(s: string, d: string, i: nat)
    requires i < |s| && d != [] && s[i] != d[0]
    ensures StripDelimited(s, d, i) == [s[i]] + StripDelimited(s, d, i + 1)
  {
    assert !OccursAt(s, i, d) by {
      if i + |d| <= |s| {
        assert s[i..i + |d|][0] == s[i];
      }
    }
  }

  /** Text up to `j` in which the delimiter's first character never appears is kept as it is. */
  lemma {:induction false} DelimitedPrefixKept(s: string, d: string, i: nat, j: nat)
    requires i <= j <= |s| && d != []
    requires forall k :: i <= k < j ==> s[k] != d[0]
    ensures StripDelimited(s, d, i) == s[i..j] + StripDelimited(s, d, j)
    decreases j - i
  {
    if i < j {
      DelimitedKeepsChar(s, d, i);
      DelimitedPrefixKept(s, d, i + 1, j);
      Regroup(s, i, j, StripDelimited(s, d, i), StripDelimited(s, d, i + 1), StripDelimited(s, d, j));
    } else {
      assert s[i..j] == [];
    }
  }

  /**
   * A delimiter at `i` whose nearest repetition on the same line is at `k`:
   * both copies go and the text between them stays.
   */
  lemma DelimitedRunReplaced(s: string, d: string, i: nat, k: nat)
    requires d != [] && i + |d| <= k && OccursAt(s, i, d) && OccursAt(s, k, d)
    requires forall m :: i + |d| <= m < k ==> !IsLineTerminator(s[m]) && !OccursAt(s, m, d)
    ensures StripDelimited(s, d, i) == s[i + |d|..k] + StripDelimited(s, d, k + |d|)
  {
    assert CloseFrom(s, i + |d|, d) == Some(k) by {
      CloseFromFirst(s, i + |d|, d, k);
    }
    DelimitedRunStep(s, d, i, k, StripDelimited(s, d, k + |d|));
  }

  /** The scan at the start of a run whose closing delimiter is at `k`. */
  lemma DelimitedRunStep(s: string, d: string, i: nat, k: nat, rest: string)
    requires i < |s| && d != [] && RunAt(s, d, i) && CloseFrom(s, i + |d|, d) == Some(k)
    requires rest == StripDelimited(s, d, k + |d|)
    ensures StripDelimited(s, d, i) == s[i + |d|..k] + rest
  {
    DelimitedRunParts(s, d, i, k);
    DelimitedStep(s, d, i);
  }

  /** A run emits its inside and resumes past its closing delimiter. */
  lemma DelimitedRunParts(s: string, d: string, i: nat, k: nat)
    requires i < |s| && d != [] && RunAt(s, d, i) && CloseFrom(s, i + |d|, d) == Some(k)
    ensures DelimitedKept(s, d, i) == s[i + |d|..k] && DelimitedResume(s, d, i) == k + |d|
  {
  }

  /** One step of the scan: what it emits, then the scan from where it resumes. */
  lemma DelimitedStep(s: string, d: string, i: nat)
    requires i < |s| && d != []
    ensures StripDelimited(s, d, i) == DelimitedKept(s, d, i) + StripDelimited(s, d, DelimitedResume(s, d, i))
  {
  }

  /** Text in which the delimiter's first character never appears is left as it is. */
  lemma StripDelimitedKeepsPlainText(s: string, d: string)
    requires d != [] && d[0] !in s
    ensures StripDelimited(s, d, 0) == s
  {
    DelimitedPrefixKept(s, d, 0, |s|);
    assert s[0..|s|] == s;
  }

  /** End of the run of at most `budget` hashes starting at `i` (`#{1,6}` is greedy). */
  function HashesEnd(s: string, i: nat, budget: nat): (e: nat)
    requires i <= |s|
    ensures i <= e <= |s| && e <= i + budget
    ensures forall k :: i <= k < e ==> s[k] == '#'
    ensures budget > 0 && i < |s| && s[i] == '#' ==> e > i
    ensures e == i + budget || e == |s| || s[e] != '#'
    decreases budget
  {
    if budget == 0 || i == |s| || s[i] != '#' then i else HashesEnd(s, i + 1, budget - 1)
  }

  // `s.replace(/#{1,6}\s*/g, '')` from index `i`: every hash goes, with the
  // spaces after each run.
  function StripHeadings(s: string, i: nat): (r: string)
    requires i <= |s|
    ensures '#' !in r
    decreases |s| - i
  {
    if i == |s| then []
    else if s[i] == '#' then StripHeadings(s, SpacesEnd(s, HashesEnd(s, i, 6)))
    else [s[i]] + StripHeadings(s, i + 1)
  }

  /** The replacement only deletes. */
  lemma {:induction false} HeadingsDeleteOnly(s: string, i: nat)
    requires i <= |s|
    ensures Subsequence(StripHeadings(s, i), s[i..])
    decreases |s| - i
  {
    if i < |s| {
      if s[i] == '#' {
        var e := SpacesEnd(s, HashesEnd(s, i, 6));
        HeadingsDeleteOnly(s, e);
        SuffixSubsequence(s, e, i, StripHeadings(s, e));
      } else {
        HeadingsDeleteOnly(s, i + 1);
        CopyThenRest(s, i, StripHeadings(s, i + 1));
        HeadingKeepsChar(s, i);
      }
    }
  }

  /** A character other than a hash is copied. */
  lemma HeadingKeepsChar(s: string, i: nat)
    requires i < |s| && s[i] != '#'
    ensures StripHeadings(s, i) == [s[i]] + StripHeadings(s, i + 1)
  {
  }

  /** Text up to `j` without a hash is kept as it is. */
  lemma {:induction false} HeadingPrefixKept(s: string, i: nat, j: nat)
    requires i <= j <= |s|
    requires forall k :: i <= k < j ==> s[k] != '#'
    ensures StripHeadings(s, i) == s[i..j] + StripHeadings(s, j)
    decreases j - i
  {
    if i < j {
      HeadingKeepsChar(s, i);
      HeadingPrefixKept(s, i + 1, j);
      Regroup(s, i, j, StripHeadings(s, i), StripHeadings(s, i + 1), StripHeadings(s, j));
    } else {
      assert s[i..j] == [];
    }
  }

  /**
   * A run of hashes on `[i, j)` of any length, with the spaces on `[j, e)`
   * after it, goes entirely: runs longer than six are taken six at a time.
   */
  lemma {:induction false} HeadingRunRemoved(s: string, i: nat, j: nat, e: nat)
    requires i < j <= e <= |s|
    requires forall k :: i <= k < j ==> s[k] == '#'
    requires j == |s| || s[j] != '#'
    requires forall k :: j <= k < e ==> IsSpace(s[k])
    requires e == |s| || !IsSpace(s[e])
    ensures StripHeadings(s, i) == StripHeadings(s, e)
    decreases j - i
  {
    var h := HashesEnd(s, i, 6);
    if j - i <= 6 {
      assert h == j;
      SpacesEndAt(s, j, e);
    } else {
      assert h == i + 6;
      SpacesEndAt(s, h, h);
      HeadingRunRemoved(s, h, j, e);
    }
  }

  /** `^` under the `m` flag: the start of the input or just after a line terminator. */
  predicate AtLineStart(s: string, p: nat) {
    p == 0 || (p <= |s| && IsLineTerminator(s[p - 1]))
  }

  /** The two list-marker patterns: `\s*[-*+]\s+` and `\s*\d+\.\s+`. */
  datatype ListMarker = Bullet | Numbered

  /** A `-`, `*` or `+`. */
  predicate IsBulletChar(c: char) {
    c == '-' || c == '*' || c == '+'
  }

  /**
   * End of the marker of the given kind matched at index `p`, if one starts
   * there. Neither `\s*` nor `\d+` can give characters back to what follows
   * it, so the greedy runs are the only way to match.
   */
  function MarkerEnd(s: string, p: nat, kind: ListMarker): (e: Option<nat>)
    requires p <= |s|
    ensures e.Some? ==> p < e.value <= |s|
  {
    var a := SpacesEnd(s, p);
    match kind
    case Bullet =>
      if a < |s| && IsBulletChar(s[a]) && SpacesEnd(s, a + 1) > a + 1 then Some(SpacesEnd(s, a + 1)) else None
    case Numbered =>
      var b := DigitsEnd(s, a);
      if a < b < |s| && s[b] == '.' && SpacesEnd(s, b + 1) > b + 1 then Some(SpacesEnd(s, b + 1)) else None
  }

  /** A marker found is blanks, a bullet or a digit run and a dot, then at least one blank, each run taken whole. */
  lemma MarkerEndShape(s: string, p: nat, kind: ListMarker)
    requires p <= |s|
    ensures var e := MarkerEnd(s, p, kind);
      e.Some? && kind == Bullet ==>
        var b := SpacesEnd(s, p);
        b < |s| && IsBulletChar(s[b]) && b + 1 < e.value && e.value == SpacesEnd(s, b + 1)
    ensures var e := MarkerEnd(s, p, kind);
      e.Some? && kind == Numbered ==>
        var a := SpacesEnd(s, p);
        var b := DigitsEnd(s, a);
        a < b < |s| && s[b] == '.' && b + 1 < e.value && e.value == SpacesEnd(s, b + 1)
  {
  }

  /** Whenever `\s*[-*+]\s+` can match at `p`, the bullet marker is found, ending after the greedy spaces. */
  lemma BulletMarkerFound(s: string, p: nat, b: nat)
    requires p <= b && b + 1 < |s|
    requires forall k :: p <= k < b ==> IsSpace(s[k])
    requires IsBulletChar(s[b]) && IsSpace(s[b + 1])
    ensures MarkerEnd(s, p, Bullet) == Some(SpacesEnd(s, b + 1))
  {
    SpacesEndAt(s, p, b);
  }

  /** Whenever `\s*\d+\.\s+` can match at `p`, the numbered marker is found, ending after the greedy spaces. */
  lemma NumberedMarkerFound(s: string, p: nat, a: nat, b: nat)
    requires p <= a < b && b + 1 < |s|
    requires forall k :: p <= k < a ==> IsSpace(s[k])
    requires forall k :: a <= k < b ==> IsDigit(s[k])
    requires s[b] == '.' && IsSpace(s[b + 1])
    ensures MarkerEnd(s, p, Numbered) == Some(SpacesEnd(s, b + 1))
  {
    SpacesEndAt(s, p, a);
    DigitsEndAt(s, a, b);
  }

  /** `s.replace(/^\s*[-*+]\s+/gm, '')` or `s.replace(/^\s*\d+\.\s+/gm, '')` from index `i`. */
  function StripMarkers(s: string, kind: ListMarker, i: nat): (r: string)
    requires i <= |s|
    ensures |r| <= |s| - i
    decreases |s| - i
  {
    if i == |s| then []
    else if AtLineStart(s, i) && MarkerEnd(s, i, kind).Some? then StripMarkers(s, kind, MarkerEnd(s, i, kind).value)
    else [s[i]] + StripMarkers(s, kind, i + 1)
  }

  /** The replacement only deletes. */
  lemma {:induction false} MarkersDeleteOnly(s: string, kind: ListMarker, i: nat)
    requires i <= |s|
    ensures Subsequence(StripMarkers(s, kind, i), s[i..])
    decreases |s| - i
  {
    if i < |s| {
      if AtLineStart(s, i) && MarkerEnd(s, i, kind).Some? {
        var e := MarkerEnd(s, i, kind).value;
        MarkersDeleteOnly(s, kind, e);
        SuffixSubsequence(s, e, i, StripMarkers(s, kind, e));
        MarkerRemoved(s, kind, i);
      } else {
        MarkersDeleteOnly(s, kind, i + 1);
        CopyThenRest(s, i, StripMarkers(s, kind, i + 1));
        MarkersKeepChar(s, kind, i);
      }
    }
  }

  /** A character where no marker starts is copied. */
  lemma MarkersKeepChar(s: string, kind: ListMarker, i: nat)
    requires i < |s| && !(AtLineStart(s, i) && MarkerEnd(s, i, kind).Some?)
    ensures StripMarkers(s, kind, i) == [s[i]] + StripMarkers(s, kind, i + 1)
  {
  }

  /** No marker of the kind starts at `p`, or `p` is not at a line start. */
  predicate NoMarkerAt(s: string, kind: ListMarker, p: nat)
    requires p <= |s|
  {
    AtLineStart(s, p) ==> MarkerEnd(s, p, kind).None?
  }

  /** Text up to `j` with no marker of the kind at a line start is kept as it is. */
  lemma MarkersPrefixKept(s: string, kind: ListMarker, i: nat, j: nat)
    requires i <= j <= |s|
    requires forall p :: i <= p < j ==> NoMarkerAt(s, kind, p)
    ensures StripMarkers(s, kind, i) == s[i..j] + StripMarkers(s, kind, j)
  {
    NoMarkersInRange(s, kind, i, j);
    MarkersRangeKept(s, kind, i, j);
  }

  /** No marker of the kind at a line start in `[i, j)`, one position at a time. */
  predicate NoMarkersIn(s: string, kind: ListMarker, i: nat, j: nat)
    requires i <= j <= |s|
    decreases j - i
  {
    i == j || (NoMarkerAt(s, kind, i) && NoMarkersIn(s, kind, i + 1, j))
  }

  lemma {:induction false} NoMarkersInRange(s: string, kind: ListMarker, i: nat, j: nat)
    requires i <= j <= |s|
    requires forall p :: i <= p < j ==> NoMarkerAt(s, kind, p)
    ensures NoMarkersIn(s, kind, i, j)
    decreases j - i
  {
    if i < j {
      NoMarkersInRange(s, kind, i + 1, j);
    }
  }

  lemma {:induction false} MarkersRangeKept(s: string, kind: ListMarker, i: nat, j: nat)
    requires i <= j <= |s| && NoMarkersIn(s, kind, i, j)
    ensures StripMarkers(s, kind, i) == s[i..j] + StripMarkers(s, kind, j)
    decreases j - i
  {
    if i < j {
      var tail := StripMarkers(s, kind, i + 1);
      var rest := StripMarkers(s, kind, j);
      MarkersRangeKept(s, kind, i + 1, j);
      MarkersPrefixStep(s, kind, i, j, tail, rest);
    } else {
      assert s[i..j] == [];
    }
  }

  /** One copied character in front of the copied text after it. */
  lemma MarkersPrefixStep(s: string, kind: ListMarker, i: nat, j: nat, tail: string, rest: string)
    requires i < j <= |s| && NoMarkerAt(s, kind, i)
    requires tail == StripMarkers(s, kind, i + 1) && rest == StripMarkers(s, kind, j)
    requires tail == s[i + 1..j] + rest
    ensures StripMarkers(s, kind, i) == s[i..j] + rest
  {
    MarkersKeepChar(s, kind, i);
    Regroup(s, i, j, StripMarkers(s, kind, i), tail, rest);
  }

  /** A marker at a line start goes, with the spaces around it. */
  lemma MarkerRemoved(s: string, kind: ListMarker, i: nat)
    requires i < |s| && AtLineStart(s, i) && MarkerEnd(s, i, kind).Some?
    ensures StripMarkers(s, kind, i) == StripMarkers(s, kind, MarkerEnd(s, i, kind).value)
  {
  }

  /** A character the text lacks does not appear after removing markers. */
  lemma MarkersKeepAbsent(s: string, kind: ListMarker, c: char)
    requires c !in s
    ensures c !in StripMarkers(s, kind, 0)
  {
    MarkersDeleteOnly(s, kind, 0);
    assert s[0..] == s;
    AbsentStaysAbsent(StripMarkers(s, kind, 0), s, c);
  }

  /** No line of `s` opens with a list marker of either kind. */
  predicate NoListMarkers(s: string) {
    forall p :: 0 <= p < |s| ==> NoMarkerAt(s, Bullet, p) && NoMarkerAt(s, Numbered, p)
  }

  /** The replacement chain, before `trim`. */
  function Stripped(s: string): (r: string)
    ensures '#' !in r
  {
    var t1 := StripDelimited(s, "**", 0);
    var t2 := StripDelimited(t1, "__", 0);
    var t3 := StripDelimited(t2, "*", 0);
    var t4 := StripDelimited(t3, "_", 0);
    var t5 := StripDelimited(t4, "`", 0);
    var h := StripHeadings(t5, 0);
    var b := StripMarkers(h, Bullet, 0);
    var n := StripMarkers(b, Numbered, 0);
    MarkersKeepAbsent(h, Bullet, '#');
    MarkersKeepAbsent(b, Numbered, '#');
    n
  }

  /** The whole chain only deletes. */
  lemma StrippedDeletesOnly(s: string)
    ensures Subsequence(Stripped(s), s)
  {
    var t1 := StripDelimited(s, "**", 0);
    var t2 := StripDelimited(t1, "__", 0);
    var t3 := StripDelimited(t2, "*", 0);
    var t4 := StripDelimited(t3, "_", 0);
    var t5 := StripDelimited(t4, "`", 0);
    var h := StripHeadings(t5, 0);
    var b := StripMarkers(h, Bullet, 0);
    var n := StripMarkers(b, Numbered, 0);
    assert Subsequence(t1, s) by {
      DelimitedDeletesOnly(s, "**", 0);
      assert s[0..] == s;
    }
    assert Subsequence(t2, s) by {
      DelimitedDeletesOnly(t1, "__", 0);
      assert t1[0..] == t1;
      SubsequenceTransitive(t2, t1, s);
    }
    assert Subsequence(t3, s) by {
      DelimitedDeletesOnly(t2, "*", 0);
      assert t2[0..] == t2;
      SubsequenceTransitive(t3, t2, s);
    }
    assert Subsequence(t4, s) by {
      DelimitedDeletesOnly(t3, "_", 0);
      assert t3[0..] == t3;
      SubsequenceTransitive(t4, t3, s);
    }
    assert Subsequence(t5, s) by {
      DelimitedDeletesOnly(t4, "`", 0);
      assert t4[0..] == t4;
      SubsequenceTransitive(t5, t4, s);
    }
    assert Subsequence(h, s) by {
      HeadingsDeleteOnly(t5, 0);
      assert t5[0..] == t5;
      SubsequenceTransitive(h, t5, s);
    }
    assert Subsequence(b, s) by {
      MarkersDeleteOnly(h, Bullet, 0);
      assert h[0..] == h;
      SubsequenceTransitive(b, h, s);
    }
    assert Subsequence(n, s) by {
      MarkersDeleteOnly(b, Numbered, 0);
      assert b[0..] == b;
      SubsequenceTransitive(n, b, s);
    }
  }

  /**
   * `cleanMarkdownText(text)`: absent or empty text gives the empty string;
   * otherwise the result has no hash and no surrounding whitespace, and is the
   * input with characters deleted.
   */
  function CleanMarkdownText(text: Option<string>): (r: string)
    ensures text == None || text == Some([]) ==> r == []
    ensures '#' !in r
    ensures r != [] ==> !IsSpace(r[0]) && !IsSpace(r[|r| - 1])
    ensures text.Some? ==> Subsequence(r, text.value)
  {
    if text.None? || text.value == [] then []
    else
      var s := Stripped(text.value);
      TrimDeletesOnly(s);
      StrippedDeletesOnly(text.value);
      SubsequenceTransitive(Trim(s), s, text.value);
      Trim(s)
  }

  /** `trim` only deletes characters. */
  lemma TrimDeletesOnly(s: string)
    ensures Subsequence(Trim(s), s)
  {
    TrimIsInnerSlice(s);
    SliceSubsequence(s, LeadingSpaces(s), LeadingSpaces(s) + |Trim(s)|, 0);
    assert s[0..] == s;
  }

  /**
   * Text with no emphasis or code delimiter, no hash and no list marker comes
   * out of the chain unchanged, so only `trim` acts on it.
   */
  lemma PlainTextPassesThrough(t: string)
    requires '*' !in t && '_' !in t && '`' !in t && '#' !in t
    requires NoListMarkers(t)
    ensures CleanMarkdownText(Some(t)) == Trim(t)
  {
    if t != [] {
      StrippedKeepsPlainText(t);
    }
  }

  /** The replacement chain leaves such text as it is. */
  lemma StrippedKeepsPlainText(t: string)
    requires '*' !in t && '_' !in t && '`' !in t && '#' !in t
    requires NoListMarkers(t)
    ensures Stripped(t) == t
  {
    EarlyStagesKeepPlainText(t);
    assert StripMarkers(t, Bullet, 0) == t by {
      MarkersPrefixKept(t, Bullet, 0, |t|);
    }
    assert StripMarkers(t, Numbered, 0) == t by {
      MarkersPrefixKept(t, Numbered, 0, |t|);
    }
  }

  /** The emphasis, code and heading replacements leave text without `*`, `_`, `` ` `` and `#` as it is. */
  lemma EarlyStagesKeepPlainText(t: string)
    requires '*' !in t && '_' !in t && '`' !in t && '#' !in t
    ensures var t5 := StripDelimited(StripDelimited(StripDelimited(StripDelimited(StripDelimited(t, "**", 0), "__", 0), "*", 0), "_", 0), "`", 0);
      t5 == t && StripHeadings(t5, 0) == t
  {
    assert t[0..|t|] == t;
    assert StripDelimited(t, "**", 0) == t by {
      StripDelimitedKeepsPlainText(t, "**");
    }
    assert StripDelimited(t, "__", 0) == t by {
      StripDelimitedKeepsPlainText(t, "__");
    }
    assert StripDelimited(t, "*", 0) == t by {
      StripDelimitedKeepsPlainText(t, "*");
    }
    assert StripDelimited(t, "_", 0) == t by {
      StripDelimitedKeepsPlainText(t, "_");
    }
    assert StripDelimited(t, "`", 0) == t by {
      StripDelimitedKeepsPlainText(t, "`");
    }
    assert StripHeadings(t, 0) == t by {
      HeadingPrefixKept(t, 0, |t|);
    }
  }

  /** `"**a**"`: both bold delimiters go and the word stays. */
  lemma BoldDelimitersRemoved()
    ensures CleanMarkdownText(Some("**a**")) == "a"
  {
    BoldStripped();
    LetterTrimsToItself();
  }

  lemma BoldStripped()
    ensures Stripped("**a**") == "a"
  {
    BoldRunOfA();
    StripDelimitedKeepsPlainText("a", "**");
    SameFirstStage("**a**", "a");
    PlainLetter();
  }

  /** Texts the first stage maps to the same text come out of the whole chain the same. */
  lemma SameFirstStage(s: string, t: string)
    requires StripDelimited(s, "**", 0) == StripDelimited(t, "**", 0)
    ensures Stripped(s) == Stripped(t)
  {
  }

  lemma BoldRunOfA()
    ensures StripDelimited("**a**", "**", 0) == "a"
  {
    var s := "**a**";
    assert s[0..2] == "**" && s[3..5] == "**" && s[2..4] == "a*";
    assert OccursAt(s, 0, "**") && OccursAt(s, 3, "**");
    assert !OccursAt(s, 2, "**") && !IsLineTerminator(s[2]);
    DelimitedRunReplaced(s, "**", 0, 3);
    assert s[2..3] == "a";
  }

  /** `"- a"`: the bullet at the line start goes with the blank after it. */
  lemma BulletMarkerRemoved()
    ensures CleanMarkdownText(Some("- a")) == "a"
  {
    var s := "- a";
    assert Stripped(s) == StripMarkers(StripMarkers(s, Bullet, 0), Numbered, 0) by {
      EarlyStagesKeepPlainText(s);
    }
    BulletOfDashA();
    PlainLetter();
  }

  lemma BulletOfDashA()
    ensures StripMarkers("- a", Bullet, 0) == "a"
  {
    var s := "- a";
    BulletMarkerFound(s, 0, 0);
    assert SpacesEnd(s, 1) == 2;
    MarkerRemoved(s, Bullet, 0);
    assert !AtLineStart(s, 2);
    MarkersKeepChar(s, Bullet, 2);
  }

  /** A lone letter is no list marker of either kind. */
  lemma LetterHasNoMarker()
    ensures NoMarkerAt("a", Bullet, 0) && NoMarkerAt("a", Numbered, 0)
  {
    var t := "a";
    assert !IsSpace(t[0]) && !IsDigit(t[0]) && !IsBulletChar(t[0]);
    assert SpacesEnd(t, 0) == 0 && DigitsEnd(t, 0) == 0;
  }

  /** A lone letter comes through marker stripping unchanged. */
  lemma LetterKeptByMarkers()
    ensures StripMarkers("a", Numbered, 0) == "a"
  {
    LetterHasNoMarker();
    MarkersPrefixKept("a", Numbered, 0, 1);
    assert "a"[0..1] == "a";
  }

  /** A lone letter has nothing to trim. */
  lemma LetterTrimsToItself()
    ensures Trim("a") == "a"
  {
    var t := "a";
    assert !IsSpace(t[0]);
    assert LeadingSpaces(t) == 0;
    TrimIsInnerSlice(t);
  }

  /** The single letter `a` is plain text: it comes through the chain and `trim` unchanged. */
  lemma PlainLetter()
    ensures Stripped("a") == "a" && Trim("a") == "a"
    ensures StripMarkers("a", Numbered, 0) == "a"
  {
    LetterKeptByMarkers();
    LetterTrimsToItself();
    assert NoListMarkers("a") by { LetterHasNoMarker(); }
    StrippedKeepsPlainText("a");
  }
}
