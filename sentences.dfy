/**
 * The sentence segmenter. The two regular expressions of `splitIntoSentences`
 * are written out as scanners:
 *   - `/[^.!?]+[.!?]+(\s|$)/g` (FindAll, built on MatchAt), and
 *   - `split(/,(?![^()]*\))/g)` (CommaSplit, built on ClosedAhead).
 */
module Sentences {
  import opened Wrappers
  import opened Text

  /** The sentence-ending punctuation `[.!?]`. */
  predicate IsTerminal(c: char) {
    c == '.' || c == '!' || c == '?'
  }

  /**
   * The end of the maximal run starting at `p` of characters that are
   * terminal (when `terminal`) or not terminal (otherwise).
   */
  function RunEnd(s: string, p: nat, terminal: bool): (q: nat)
    requires p <= |s|
    ensures p <= q <= |s|
    ensures q == |s| || IsTerminal(s[q]) != terminal
    decreases |s| - p
  {
    if p == |s| || IsTerminal(s[p]) != terminal then p else RunEnd(s, p + 1, terminal)
  }

  /** Every character the run covers is of the run's kind. */
  lemma {:induction false} RunEndCovers(s: string, p: nat, terminal: bool)
    requires p <= |s|
    ensures forall i :: p <= i < RunEnd(s, p, terminal) ==> IsTerminal(s[i]) == terminal
    decreases |s| - p
  {
    if p < |s| && IsTerminal(s[p]) == terminal {
      RunEndCovers(s, p + 1, terminal);
    }
  }

  /**
   * One attempt of `[^.!?]+[.!?]+(\s|$)` anchored at `p`: the end of the
   * match, or None. Backtracking never helps this pattern, so both runs are
   * taken whole.
   */
  function MatchAt(s: string, p: nat): (m: Option<nat>)
    requires p <= |s|
    ensures m.Some? ==> p + 2 <= m.value <= |s|
  {
    var q := RunEnd(s, p, false);
    if q == p then None
    else
      var r := RunEnd(s, q, true);
      if r == q then None
      else if r == |s| then Some(r)
      else if IsSpace(s[r]) then Some(r + 1)
      else None
  }

  /**
   * The pattern itself, read declaratively: `s[p..e]` is one or more
   * non-terminal characters, one or more terminal characters, and then
   * either one white-space character or the end of the text.
   */
  ghost predicate PatternAt(s: string, p: nat, e: nat) {
    p <= e <= |s| &&
    exists q, r :: p < q < r <= e && Runs(s, p, q, r) &&
      ((r == e && e == |s|) || (e == r + 1 && IsSpace(s[r])))
  }

  /** `s[p..q]` has no terminal punctuation and `s[q..r]` is all terminal punctuation. */
  predicate Runs(s: string, p: nat, q: nat, r: nat)
    requires p <= q <= r <= |s|
  {
    (forall i :: p <= i < q ==> !IsTerminal(s[i])) &&
    (forall i :: q <= i < r ==> IsTerminal(s[i]))
  }

  /** The scanner finds a match at `p` exactly when the pattern matches there, and it finds that match. */
  lemma MatchAtIsPattern(s: string, p: nat, e: nat)
    requires p <= |s|
    ensures MatchAt(s, p) == Some(e) <==> PatternAt(s, p, e)
  {
    var q := RunEnd(s, p, false);
    if PatternAt(s, p, e) {
      var q', r' :| p < q' < r' <= e && Runs(s, p, q', r') &&
        ((r' == e && e == |s|) || (e == r' + 1 && IsSpace(s[r'])));
      // the first run cannot stop early or run late
      RunEndUnique(s, p, q', false);
      var r := RunEnd(s, q, true);
      RunEndUnique(s, q, r', true);
    }
    if MatchAt(s, p) == Some(e) {
      var r := RunEnd(s, q, true);
      RunEndCovers(s, p, false);
      RunEndCovers(s, q, true);
      assert p < q < r <= e && Runs(s, p, q, r) &&
        ((r == e && e == |s|) || (e == r + 1 && IsSpace(s[r])));
    }
  }

  /** A run that stops where the characters change kind is the maximal run. */
  lemma {:induction false} RunEndUnique(s: string, p: nat, q: nat, terminal: bool)
    requires p <= q <= |s|
    requires forall i :: p <= i < q ==> IsTerminal(s[i]) == terminal
    requires q == |s| || IsTerminal(s[q]) != terminal
    ensures RunEnd(s, p, terminal) == q
    decreases q - p
  {
    if p < q {
      RunEndUnique(s, p + 1, q, terminal);
    }
  }

  /**
   * What every match looks like: at least two characters, ending in
   * terminal punctuation, or in terminal punctuation and one white space.
   */
  predicate SentenceShaped(m: string) {
    |m| >= 2 &&
    (IsTerminal(m[|m| - 1]) || (IsSpace(m[|m| - 1]) && IsTerminal(m[|m| - 2])))
  }

  /**
   * `s.match(/[^.!?]+[.!?]+(\s|$)/g)` from position `p`, with "no match" as
   * the empty sequence: after a match the scan resumes at its end, after a
   * failed attempt one character further on.
   */
  function FindAll(s: string, p: nat): seq<string>
    requires p <= |s|
    decreases |s| - p
  {
    if p == |s| then []
    else
      match MatchAt(s, p)
      case Some(e) => [s[p..e]] + FindAll(s, e)
      case None => FindAll(s, p + 1)
  }

  /** A match is sentence-shaped. */
  lemma MatchIsShaped(s: string, p: nat)
    requires p <= |s| && MatchAt(s, p).Some?
    ensures SentenceShaped(s[p..MatchAt(s, p).value])
  {
    var q := RunEnd(s, p, false);
    var t := RunEnd(s, q, true);
    RunEndCovers(s, q, true);
    assert IsTerminal(s[t - 1]);
  }

  /**
   * Every match is sentence-shaped and is a slice of the text, so the matches
   * of a collapsed text are collapsed too.
   */
  lemma {:induction false} FindAllShaped(s: string, p: nat)
    requires p <= |s|
    ensures forall k :: 0 <= k < |FindAll(s, p)| ==> SentenceShaped(FindAll(s, p)[k])
    ensures Collapsed(s) ==> forall k :: 0 <= k < |FindAll(s, p)| ==> Collapsed(FindAll(s, p)[k])
    decreases |s| - p
  {
    if p < |s| {
      match MatchAt(s, p)
      case Some(e) =>
        FindAllShaped(s, e);
        MatchIsShaped(s, p);
        CollapsedSlice(s, p, e);
      case None =>
        FindAllShaped(s, p + 1);
    }
  }

  /**
   * The lookahead `(?![^()]*\))` fails at `j` exactly when the first
   * parenthesis at or after `j` is a closing one.
   */
  function ClosedAhead(s: string, j: nat): bool
    requires j <= |s|
    decreases |s| - j
  {
    if j == |s| then false
    else if s[j] == ')' then true
    else if s[j] == '(' then false
    else ClosedAhead(s, j + 1)
  }

  /** `[^()]*\)` matches at `j`. */
  ghost predicate ParenClosesAt(s: string, j: nat) {
    exists k :: j <= k < |s| && s[k] == ')' && forall i :: j <= i < k ==> s[i] != '(' && s[i] != ')'
  }

  /** The scanner for the lookahead agrees with the pattern it stands for. */
  lemma {:induction false} ClosedAheadIsPattern(s: string, j: nat)
    requires j <= |s|
    ensures ClosedAhead(s, j) <==> ParenClosesAt(s, j)
    decreases |s| - j
  {
    if j < |s| {
      if s[j] == ')' {
      } else if s[j] == '(' {
      } else {
        ClosedAheadIsPattern(s, j + 1);
        if ParenClosesAt(s, j) {
          var k :| j <= k < |s| && s[k] == ')' && forall i :: j <= i < k ==> s[i] != '(' && s[i] != ')';
          assert ParenClosesAt(s, j + 1) by { assert k != j; }
        }
        if ParenClosesAt(s, j + 1) {
          var k :| j + 1 <= k < |s| && s[k] == ')' && forall i :: j + 1 <= i < k ==> s[i] != '(' && s[i] != ')';
          assert forall i :: j <= i < k ==> s[i] != '(' && s[i] != ')';
        }
      }
    }
  }

  /** The comma at `i` is a separator: it is not followed by a `)` before any `(`. */
  predicate SplitsAt(s: string, i: nat)
    requires i < |s|
  {
    s[i] == ',' && !ClosedAhead(s, i + 1)
  }

  /** The number of separating commas in `s[i..]`. */
  function SeparatorCount(s: string, i: nat): nat
    requires i <= |s|
    decreases |s| - i
  {
    if i == |s| then 0
    else (if SplitsAt(s, i) then 1 else 0) + SeparatorCount(s, i + 1)
  }

  /**
   * The pieces of `s[start..]` between separating commas, scanning from `i`
   * (the current piece began at `start`).
   */
  function Pieces(s: string, start: nat, i: nat): seq<string>
    requires start <= i <= |s|
    decreases |s| - i
  {
    if i == |s| then [s[start..]]
    else if SplitsAt(s, i) then [s[start..i]] + Pieces(s, i + 1, i + 1)
    else Pieces(s, start, i + 1)
  }

  /** `s.split(/,(?![^()]*\))/g)`. */
  function CommaSplit(s: string): seq<string> {
    Pieces(s, 0, 0)
  }

  /** There is one piece more than there are separating commas, and every piece is a slice of the text. */
  lemma {:induction false} PiecesShape(s: string, start: nat, i: nat)
    requires start <= i <= |s|
    ensures |Pieces(s, start, i)| == SeparatorCount(s, i) + 1
    ensures Collapsed(s) ==> forall k :: 0 <= k < |Pieces(s, start, i)| ==> Collapsed(Pieces(s, start, i)[k])
    decreases |s| - i
  {
    if i == |s| {
      CollapsedSlice(s, start, |s|);
      assert s[start..|s|] == s[start..];
    } else if SplitsAt(s, i) {
      PiecesShape(s, i + 1, i + 1);
      CollapsedSlice(s, start, i);
    } else {
      PiecesShape(s, start, i + 1);
    }
  }

  /**
   * Which commas split: the current piece runs up to the first separating
   * comma at or after `i` (or to the end of the text), and the pieces after
   * it start just past that comma.
   */
  lemma {:induction false} PiecesFirst(s: string, start: nat, i: nat, j: nat)
    requires start <= i <= j <= |s|
    requires forall k :: i <= k < j ==> !SplitsAt(s, k)
    requires j == |s| || SplitsAt(s, j)
    ensures |Pieces(s, start, i)| >= 1 && Pieces(s, start, i)[0] == s[start..j]
    ensures j < |s| ==> Pieces(s, start, i)[1..] == Pieces(s, j + 1, j + 1)
    ensures j == |s| ==> |Pieces(s, start, i)| == 1
    decreases j - i
  {
    if i < j {
      PiecesFirst(s, start, i + 1, j);
    } else if j < |s| {
      assert Pieces(s, start, i) == [s[start..i]] + Pieces(s, i + 1, i + 1);
    }
  }

  /** `pieces.join(",")`. */
  function Join(pieces: seq<string>): string {
    if pieces == [] then ""
    else if |pieces| == 1 then pieces[0]
    else pieces[0] + "," + Join(pieces[1..])
  }

  /** Splitting on the separating commas loses nothing: joining the pieces with "," gives the text back. */
  lemma CommaSplitJoins(s: string)
    ensures Join(CommaSplit(s)) == s
  {
    PiecesJoin(s, 0, 0);
  }

  lemma {:induction false} PiecesJoin(s: string, start: nat, i: nat)
    requires start <= i <= |s|
    ensures Join(Pieces(s, start, i)) == s[start..]
    decreases |s| - i
  {
    if i == |s| {
    } else if SplitsAt(s, i) {
      var rest := Pieces(s, i + 1, i + 1);
      PiecesJoin(s, i + 1, i + 1);
      PiecesShape(s, i + 1, i + 1);
      assert ([s[start..i]] + rest)[1..] == rest;
      assert s[start..] == s[start..i] + "," + s[i + 1..];
    } else {
      PiecesJoin(s, start, i + 1);
    }
  }

  /** `ms.map(s => s.trim())`. */
  function TrimEach(ms: seq<string>): (r: seq<string>)
  {
    seq(|ms|, k requires 0 <= k < |ms| => Trim(ms[k]))
  }

  /** `ps.map(p => p.trim() + ".")`. */
  function Terminate(ps: seq<string>): (r: seq<string>)
  {
    seq(|ps|, k requires 0 <= k < |ps| => Trim(ps[k]) + ".")
  }

  // ------------------------------------------------ the scanners look forward only

  /** Dropping a prefix does not change a run; it only shifts it. */
  lemma RunEndDrop(s: string, k: nat, p: nat, terminal: bool)
    requires k <= |s| && p <= |s| - k
    ensures RunEnd(s, k + p, terminal) == k + RunEnd(s[k..], p, terminal)
  {
    var t := s[k..];
    var q := RunEnd(t, p, terminal);
    RunEndCovers(t, p, terminal);
    assert forall i :: k <= i < |s| ==> s[i] == t[i - k];
    RunEndUnique(s, k + p, k + q, terminal);
  }

  /** Text behind a run that ends early does not change it. */
  lemma RunEndAppend(a: string, b: string, p: nat, terminal: bool)
    requires p <= |a| && RunEnd(a, p, terminal) < |a|
    ensures RunEnd(a + b, p, terminal) == RunEnd(a, p, terminal)
  {
    var q := RunEnd(a, p, terminal);
    RunEndCovers(a, p, terminal);
    var s := a + b;
    assert forall i :: 0 <= i < |a| ==> s[i] == a[i];
    RunEndUnique(s, p, q, terminal);
  }

  /**
   * Words without punctuation, then punctuation, then a white space or the
   * end: the pattern matches all of it.
   */
  lemma SentenceMatch(w: string, stop: string, tail: string)
    requires w != [] && stop != []
    requires forall i :: 0 <= i < |w| ==> !IsTerminal(w[i])
    requires forall i :: 0 <= i < |stop| ==> IsTerminal(stop[i])
    requires tail == [] || IsSpace(tail[0])
    ensures MatchAt(w + stop + tail, 0) == Some(|w| + |stop| + if tail == [] then 0 else 1)
  {
    var s := w + stop + tail;
    var q, r := |w|, |w| + |stop|;
    var e := if tail == [] then r else r + 1;
    assert forall i :: 0 <= i < q ==> s[i] == w[i];
    assert forall i :: q <= i < r ==> s[i] == stop[i - q];
    if tail != [] {
      assert s[r] == tail[0];
    }
    assert Runs(s, 0, q, r);
    assert PatternAt(s, 0, e);
    MatchAtIsPattern(s, 0, e);
  }

  /**
   * Punctuation followed directly by a character that is neither punctuation
   * nor white space ends no match: the scan steps over the text up to and
   * including it.
   */
  lemma {:induction false} InnerStopSkipped(s: string, p: nat, e: nat)
    requires p <= e && e + 1 < |s|
    requires forall i :: p <= i < e ==> !IsTerminal(s[i])
    requires IsTerminal(s[e]) && !IsTerminal(s[e + 1]) && !IsSpace(s[e + 1])
    ensures FindAll(s, p) == FindAll(s, e + 1)
    decreases e - p
  {
    if p < e {
      RunEndUnique(s, p, e, false);
      RunEndUnique(s, e, e + 1, true);
      assert MatchAt(s, p) == None;
      InnerStopSkipped(s, p + 1, e);
    } else {
      assert RunEnd(s, e, false) == e;
    }
  }

  /** Text without terminal punctuation has no matches. */
  lemma {:induction false} NoStopNoMatch(s: string, p: nat)
    requires p <= |s|
    requires forall i :: p <= i < |s| ==> !IsTerminal(s[i])
    ensures FindAll(s, p) == []
    decreases |s| - p
  {
    if p < |s| {
      var q := RunEnd(s, p, false);
      assert q == |s|;
      NoStopNoMatch(s, p + 1);
    }
  }

  /** Dropping a prefix does not change a match attempt; it only shifts it. */
  lemma MatchAtDrop(s: string, k: nat, p: nat)
    requires k <= |s| && p <= |s| - k
    ensures MatchAt(s, k + p) == if MatchAt(s[k..], p).Some? then Some(k + MatchAt(s[k..], p).value) else None
  {
    var t := s[k..];
    var q := RunEnd(t, p, false);
    RunEndDrop(s, k, p, false);
    var r := RunEnd(t, q, true);
    RunEndDrop(s, k, q, true);
    if r < |t| {
      assert s[k + r] == t[r];
    }
  }

  /** Text in front does not change a match attempt; it only shifts it. */
  lemma MatchAtShift(x: string, y: string, p: nat)
    requires p <= |y|
    ensures MatchAt(x + y, |x| + p) == if MatchAt(y, p).Some? then Some(|x| + MatchAt(y, p).value) else None
  {
    MatchAtDrop(x + y, |x|, p);
    assert (x + y)[|x|..] == y;
  }

  /** A match that ends in white space is found again when text is appended. */
  lemma MatchAtAppend(a: string, b: string)
    requires MatchAt(a, 0) == Some(|a|) && IsSpace(a[|a| - 1])
    ensures MatchAt(a + b, 0) == Some(|a|)
  {
    var q := RunEnd(a, 0, false);
    RunEndAppend(a, b, 0, false);
    var r := RunEnd(a, q, true);
    RunEndCovers(a, q, true);
    RunEndAppend(a, b, q, true);
    assert (a + b)[r] == a[r];
  }

  /** Dropping a prefix does not change the matches after it. */
  lemma {:induction false} FindAllDrop(s: string, k: nat, p: nat)
    requires k <= |s| && p <= |s| - k
    ensures FindAll(s, k + p) == FindAll(s[k..], p)
    decreases |s| - k - p
  {
    if p < |s| - k {
      match MatchAt(s[k..], p)
      case Some(e) =>
        FindAllDrop(s, k, e);
        DropMatch(s, k, p, e);
      case None =>
        FindAllDrop(s, k, p + 1);
        DropMiss(s, k, p);
    }
  }

  /** FindAllDrop across a match: both scans take the same text and resume at its end. */
  lemma DropMatch(s: string, k: nat, p: nat, e: nat)
    requires k <= |s| && p < |s| - k && MatchAt(s[k..], p) == Some(e)
    requires FindAll(s, k + e) == FindAll(s[k..], e)
    ensures FindAll(s, k + p) == FindAll(s[k..], p)
  {
    var t := s[k..];
    MatchAtDrop(s, k, p);
    assert MatchAt(s, k + p) == Some(k + e);
    SliceOfDrop(s, k, p, e);
    FindAllAtMatch(s, k + p, k + e);
    FindAllAtMatch(t, p, e);
    SameHead(FindAll(s, k + p), FindAll(t, p), t[p..e], FindAll(s, k + e), FindAll(t, e));
  }

  /** A slice of a suffix is a slice of the whole text. */
  lemma SliceOfDrop(s: string, k: nat, p: nat, e: nat)
    requires k <= |s| && p <= e <= |s| - k
    ensures s[k..][p..e] == s[k + p..k + e]
  {
  }

  /** Two lists with the same head and the same tail are equal. */
  lemma SameHead(a: seq<string>, b: seq<string>, m: string, ra: seq<string>, rb: seq<string>)
    requires a == [m] + ra && b == [m] + rb && ra == rb
    ensures a == b
  {
  }

  /** FindAllDrop across a position with no match: both scans move on by one. */
  lemma DropMiss(s: string, k: nat, p: nat)
    requires k <= |s| && p < |s| - k && MatchAt(s[k..], p).None?
    requires FindAll(s, k + (p + 1)) == FindAll(s[k..], p + 1)
    ensures FindAll(s, k + p) == FindAll(s[k..], p)
  {
    MatchAtDrop(s, k, p);
    assert k + p + 1 == k + (p + 1);
    FindAllAtMiss(s, k + p);
    FindAllAtMiss(s[k..], p);
  }

  /** Text in front does not change the matches after it. */
  lemma FindAllShift(x: string, y: string, p: nat)
    requires p <= |y|
    ensures FindAll(x + y, |x| + p) == FindAll(y, p)
  {
    FindAllDrop(x + y, |x|, p);
    assert (x + y)[|x|..] == y;
  }

  /** Where the pattern matches, the match is taken and the scan resumes at its end. */
  lemma FindAllAtMatch(s: string, p: nat, e: nat)
    requires p < |s| && MatchAt(s, p) == Some(e)
    ensures FindAll(s, p) == [s[p..e]] + FindAll(s, e)
  {
  }

  /** Where the pattern does not match, the scan moves on by one character. */
  lemma FindAllAtMiss(s: string, p: nat)
    requires p < |s| && MatchAt(s, p).None?
    ensures FindAll(s, p) == FindAll(s, p + 1)
  {
  }

  /** When the text opens with the match `a`, the matches are `a` and then those of the rest. */
  lemma FindAllFirst(a: string, b: string)
    requires MatchAt(a + b, 0) == Some(|a|)
    ensures FindAll(a + b, 0) == [a] + FindAll(b, 0)
  {
    FindAllShift(a, b, 0);
    assert (a + b)[0..|a|] == a;
  }

  /** Text in front does not change the lookahead; it only looks forward. */
  lemma {:induction false} ClosedAheadShift(x: string, y: string, j: nat)
    requires j <= |y|
    ensures ClosedAhead(x + y, |x| + j) == ClosedAhead(y, j)
    decreases |y| - j
  {
    if j < |y| {
      assert (x + y)[|x| + j] == y[j];
      ClosedAheadShift(x, y, j + 1);
    }
  }

  /** Without a ')' ahead the lookahead never fails. */
  lemma {:induction false} NoCloseAhead(s: string, j: nat)
    requires j <= |s| && ')' !in s
    ensures !ClosedAhead(s, j)
    decreases |s| - j
  {
    if j < |s| {
      assert s[j] in s;
      NoCloseAhead(s, j + 1);
    }
  }

  /** Text in front does not change the pieces after it. */
  lemma {:induction false} PiecesShift(x: string, y: string, start: nat, i: nat)
    requires start <= i <= |y|
    ensures Pieces(x + y, |x| + start, |x| + i) == Pieces(y, start, i)
    decreases |y| - i
  {
    var s := x + y;
    if i == |y| {
      assert s[|x| + start..] == y[start..];
    } else {
      assert s[|x| + i] == y[i];
      ClosedAheadShift(x, y, i + 1);
      if SplitsAt(y, i) {
        PiecesShift(x, y, i + 1, i + 1);
        assert s[|x| + start..|x| + i] == y[start..i];
      } else {
        PiecesShift(x, y, start, i + 1);
      }
    }
  }

  /** Pieces are unaffected by a stretch of characters that are not separators. */
  lemma {:induction false} PiecesSkip(s: string, start: nat, i: nat, j: nat)
    requires start <= i <= j <= |s|
    requires forall k :: i <= k < j ==> !SplitsAt(s, k)
    ensures Pieces(s, start, i) == Pieces(s, start, j)
    decreases j - i
  {
    if i < j {
      PiecesSkip(s, start, i + 1, j);
    }
  }

  /** A text without commas is one piece. */
  lemma CommaSplitNone(a: string)
    requires ',' !in a
    ensures CommaSplit(a) == [a]
  {
    PiecesSkip(a, 0, 0, |a|);
    assert a[0..] == a;
  }

  /**
   * A comma with no ')' anywhere after it separates: the pieces are the text
   * before it and then the pieces of the text after it.
   */
  lemma CommaSplitCons(a: string, b: string)
    requires ',' !in a && ')' !in b
    ensures CommaSplit(a + "," + b) == [a] + CommaSplit(b)
  {
    var x := a + ",";
    var s := x + b;
    assert s == a + "," + b;
    assert forall k :: 0 <= k < |a| ==> s[k] == a[k];
    PiecesSkip(s, 0, 0, |a|);
    NoCloseAhead(b, 0);
    ClosedAheadShift(x, b, 0);
    assert SplitsAt(s, |a|);
    PiecesShift(x, b, 0, 0);
    assert s[0..|a|] == a;
  }

  /** A sentence as the reader speaks it: clean, non-empty, ending in terminal punctuation. */
  ghost predicate Spoken(x: string) {
    Normal(x) && x != [] && IsTerminal(x[|x| - 1])
  }

  /**
   * `splitIntoSentences`: no sentences for empty text; the trimmed matches
   * when there are at least two; otherwise the comma pieces, each trimmed and
   * closed with ".".
   */
  function SplitIntoSentences(text: string): seq<string> {
    if text == [] then [] else Segment(Normalize(text))
  }

  /** The two strategies applied to the normalised text `t`. */
  function Segment(t: string): seq<string> {
    var found := FindAll(t, 0);
    if |found| > 1 then TrimEach(found) else Terminate(CommaSplit(t))
  }

  /**
   * Only empty text gives no sentences, and every sentence returned is clean
   * (trimmed, white space collapsed), non-empty, and ends in `.`, `!` or `?`.
   */
  lemma SentencesAreSpoken(text: string)
    ensures SplitIntoSentences(text) == [] <==> text == []
    ensures forall k :: 0 <= k < |SplitIntoSentences(text)| ==> Spoken(SplitIntoSentences(text)[k])
  {
    if text != [] {
      NormalizeIsNormal(text);
      SegmentIsSpoken(Normalize(text));
    }
  }

  /** On collapsed text both strategies give at least one sentence, each of them spoken-shaped. */
  lemma SegmentIsSpoken(t: string)
    requires Collapsed(t)
    ensures Segment(t) != []
    ensures forall k :: 0 <= k < |Segment(t)| ==> Spoken(Segment(t)[k])
  {
    var found := FindAll(t, 0);
    FindAllShaped(t, 0);
    if |found| > 1 {
      TrimmedMatches(found);
    } else {
      var pieces := CommaSplit(t);
      PiecesShape(t, 0, 0);
      ClosedPieces(pieces);
    }
  }

  lemma TrimmedMatches(ms: seq<string>)
    requires forall k :: 0 <= k < |ms| ==> SentenceShaped(ms[k]) && Collapsed(ms[k])
    ensures forall k :: 0 <= k < |ms| ==> Spoken(TrimEach(ms)[k])
  {
    forall k | 0 <= k < |ms| ensures Spoken(TrimEach(ms)[k]) {
      TrimmedMatch(ms[k]);
    }
  }

  lemma ClosedPieces(ps: seq<string>)
    requires forall k :: 0 <= k < |ps| ==> Collapsed(ps[k])
    ensures forall k :: 0 <= k < |ps| ==> Spoken(Terminate(ps)[k])
  {
    forall k | 0 <= k < |ps| ensures Spoken(Terminate(ps)[k]) {
      ClosedPiece(ps[k]);
    }
  }

  /** A collapsed match, once trimmed, is a spoken sentence. */
  lemma TrimmedMatch(m: string)
    requires SentenceShaped(m) && Collapsed(m)
    ensures Spoken(Trim(m))
  {
    var e := MatchTrimEnd(m);
    var r := TrimStart(e);
    TrimStartDropsSpace(e);
    assert r != [];
    assert r[|r| - 1] == e[|e| - 1];
    TrimKeepsCollapsed(m);
    TrimIsTrimmed(m);
  }

  /** Trimming the end of a match drops at most its one trailing space and leaves the punctuation last. */
  lemma MatchTrimEnd(m: string) returns (e: string)
    requires SentenceShaped(m)
    ensures e == TrimEnd(m) && e != [] && e == m[..|e|] && IsTerminal(e[|e| - 1])
  {
    if IsTerminal(m[|m| - 1]) {
      e := m;
    } else {
      var p := m[..|m| - 1];
      assert TrimEnd(p) == p;
      e := p;
    }
  }

  /** A collapsed comma piece, trimmed and closed with ".", is a spoken sentence. */
  lemma ClosedPiece(p: string)
    requires Collapsed(p)
    ensures Spoken(Trim(p) + ".")
  {
    TrimKeepsCollapsed(p);
    TrimIsTrimmed(p);
    ClosedSentence(Trim(p));
  }

  /** A clean text with "." appended is a spoken sentence. */
  lemma ClosedSentence(t: string)
    requires Normal(t)
    ensures Spoken(t + ".")
  {
    CollapsedAppend(t, '.');
    if t != [] {
      assert (t + ".")[0] == t[0];
    }
  }

  /** Appending a character that is not white space keeps a text collapsed. */
  lemma {:induction false} CollapsedAppend(t: string, c: char)
    requires Collapsed(t) && !IsSpace(c)
    ensures Collapsed(t + [c])
    decreases |t|
  {
    if t != [] {
      CollapsedAppend(t[1..], c);
      assert (t + [c])[1..] == t[1..] + [c];
      assert (t + [c])[0] == t[0];
      if |t| == 1 {
        assert (t + [c])[1] == c;
      } else {
        assert (t + [c])[1] == t[1];
      }
    }
  }

  /** Text made only of white space falls through to the comma fallback and gives the single sentence ".". */
  lemma BlankTextIsOneStop(text: string)
    requires text != []
    requires Blank(text)
    ensures SplitIntoSentences(text) == ["."]
  {
    NormalizeBlank(text);
    NothingToSay(text);
  }

  lemma NothingToSay(text: string)
    requires text != [] && Normalize(text) == []
    ensures SplitIntoSentences(text) == ["."]
  {
    assert SplitIntoSentences(text) == Segment([]);
    assert FindAll([], 0) == [];
    assert CommaSplit([]) == [""] by {
      assert Pieces([], 0, 0) == [[][0..]];
    }
    TerminateOne([]);
    assert Trim([]) == [];
    assert [] + "." == ".";
  }

  /**
   * Without two punctuation matches the result has one sentence per
   * separating comma plus one, and the pieces joined with "," are the
   * normalised text.
   */
  lemma FallbackCount(text: string)
    requires text != []
    requires |FindAll(Normalize(text), 0)| <= 1
    ensures |SplitIntoSentences(text)| == SeparatorCount(Normalize(text), 0) + 1
    ensures Join(CommaSplit(Normalize(text))) == Normalize(text)
  {
    PiecesShape(Normalize(text), 0, 0);
    CommaSplitJoins(Normalize(text));
  }

  /**
   * A clean text that is one sentence and has no comma falls through to the
   * comma fallback and is closed again: its punctuation is doubled.
   */
  lemma LoneSentenceIsClosedTwice(t: string)
    requires Normal(t) && t != [] && ',' !in t
    requires MatchAt(t, 0) == Some(|t|)
    ensures SplitIntoSentences(t) == [t + "."]
  {
    NormalFixed(t);
    WholeMatch(t);
    assert SplitIntoSentences(t) == Terminate(CommaSplit(t));
    CommaSplitNone(t);
    TerminateOne(t);
    TrimmedFixed(t);
  }

  /** A text that is one match from start to end is found as exactly that match. */
  lemma WholeMatch(t: string)
    requires t != [] && MatchAt(t, 0) == Some(|t|)
    ensures FindAll(t, 0) == [t]
  {
    assert t[0..|t|] == t;
    assert FindAll(t, |t|) == [];
  }

  /** One comma piece is closed on its own. */
  lemma TerminateOne(a: string)
    ensures Terminate([a]) == [Trim(a) + "."]
  {
    var r := Terminate([a]);
    assert |r| == 1 && r[0] == Trim(a) + ".";
  }

  /** With two or more matches every match becomes one sentence, in order. */
  lemma PrimaryCount(text: string)
    requires text != []
    requires |FindAll(Normalize(text), 0)| > 1
    ensures SplitIntoSentences(text) == TrimEach(FindAll(Normalize(text), 0))
  {
  }
}
