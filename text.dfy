/**
 * White-space handling shared by the label extractor and the sentence
 * segmenter: the regular-expression replacement `replace(/\s+/g, " ")`
 * (Collapse) and `String.prototype.trim` (Trim), and their composition
 * (Normalize), which is how content.js cleans every piece of text it speaks.
 */
module Text {

  /** The characters matched by JavaScript's `\s`; `trim` strips exactly the same set. */
  predicate IsSpace(c: char) {
    c == ' ' || '\t' <= c <= '\r' || c == '\U{00A0}' || c == '\U{1680}' ||
    '\U{2000}' <= c <= '\U{200A}' || c == '\U{2028}' || c == '\U{2029}' ||
    c == '\U{202F}' || c == '\U{205F}' || c == '\U{3000}' || c == '\U{FEFF}'
  }

  /** Every white-space character is a plain space and no two of them are adjacent. */
  ghost predicate Collapsed(s: string)
    decreases |s|
  {
    s == [] ||
    ((IsSpace(s[0]) ==> s[0] == ' ' && (|s| == 1 || !IsSpace(s[1]))) && Collapsed(s[1..]))
  }

  /** No white space at either end. */
  predicate Trimmed(s: string) {
    s == [] || (!IsSpace(s[0]) && !IsSpace(s[|s| - 1]))
  }

  /** The shape of every text the reader speaks after cleaning. */
  ghost predicate Normal(s: string) {
    Collapsed(s) && Trimmed(s)
  }

  /** Every character of `s` is white space (vacuously so for ""). */
  ghost predicate Blank(s: string) {
    forall i :: 0 <= i < |s| ==> IsSpace(s[i])
  }

  /** The characters of `s` that are not white space, in order. */
  function NonSpace(s: string): string {
    if s == [] then []
    else if IsSpace(s[0]) then NonSpace(s[1..])
    else [s[0]] + NonSpace(s[1..])
  }

  /** `trimStart`: drops the leading white space; the result is a suffix of `s`. */
  function TrimStart(s: string): (r: string)
    ensures |r| <= |s| && r == s[|s| - |r|..]
    ensures r == [] || !IsSpace(r[0])
  {
    if s != [] && IsSpace(s[0]) then TrimStart(s[1..]) else s
  }

  /** `trimEnd`: drops the trailing white space; the result is a prefix of `s`. */
  function TrimEnd(s: string): (r: string)
    ensures |r| <= |s| && r == s[..|r|]
    ensures r == [] || !IsSpace(r[|r| - 1])
  {
    if s != [] && IsSpace(s[|s| - 1]) then TrimEnd(s[..|s| - 1]) else s
  }

  /** `trim`. */
  function Trim(s: string): string {
    TrimStart(TrimEnd(s))
  }

  /** `replace(/\s+/g, " ")`: every maximal run of white space becomes one space. */
  function Collapse(s: string): string
    decreases |s|
  {
    if s == [] then []
    else if IsSpace(s[0]) then [' '] + Collapse(TrimStart(s[1..]))
    else [s[0]] + Collapse(s[1..])
  }

  /** `replace(/\s+/g, " ").trim()`. */
  function Normalize(s: string): string {
    Trim(Collapse(s))
  }

  // ---------------------------------------------------------------- trimming

  /** What `trimStart` drops is white space. */
  lemma {:induction false} TrimStartDropsSpace(s: string)
    ensures forall i :: 0 <= i < |s| - |TrimStart(s)| ==> IsSpace(s[i])
    decreases |s|
  {
    if s != [] && IsSpace(s[0]) {
      TrimStartDropsSpace(s[1..]);
      assert forall i :: 1 <= i < |s| ==> s[i] == s[1..][i - 1];
    }
  }

  /** What `trimEnd` drops is white space. */
  lemma {:induction false} TrimEndDropsSpace(s: string)
    ensures forall i :: |TrimEnd(s)| <= i < |s| ==> IsSpace(s[i])
    decreases |s|
  {
    if s != [] && IsSpace(s[|s| - 1]) {
      TrimEndDropsSpace(s[..|s| - 1]);
    }
  }

  /** Trimming leaves no white space at either end. */
  lemma TrimIsTrimmed(s: string)
    ensures Trimmed(Trim(s))
  {
    var e := TrimEnd(s);
    var r := TrimStart(e);
    if r != [] {
      assert r[|r| - 1] == e[|e| - 1];
    }
  }

  /** Trimming cuts a slice out of the text. */
  lemma TrimSlice(s: string)
    ensures |Trim(s)| <= |TrimEnd(s)| && Trim(s) == s[|TrimEnd(s)| - |Trim(s)|..|TrimEnd(s)|]
  {
  }

  /** Trimming empties exactly the texts made only of white space. */
  lemma TrimBlank(s: string)
    ensures Trim(s) == [] <==> Blank(s)
  {
    if Trim(s) == [] {
      TrimEmptyIsBlank(s);
    } else {
      TrimSlice(s);
      var e := TrimEnd(s);
      var r := Trim(s);
      assert r[0] == s[|e| - |r|];
    }
  }

  /** When `trim` leaves nothing, everything it removed was white space. */
  lemma TrimEmptyIsBlank(s: string)
    requires Trim(s) == []
    ensures Blank(s)
  {
    var e := TrimEnd(s);
    TrimStartDropsSpace(e);
    assert e == [];
    TrimEndDropsSpace(s);
  }

  // -------------------------------------------------------------- collapsing

  /** A collapsed text stays collapsed when its last character is dropped. */
  lemma {:induction false} CollapsedInit(s: string)
    requires s != [] && Collapsed(s)
    ensures Collapsed(s[..|s| - 1])
    decreases |s|
  {
    if |s| > 1 {
      CollapsedInit(s[1..]);
      assert s[..|s| - 1][1..] == s[1..][..|s| - 2];
    }
  }

  /** Every slice of a collapsed text is collapsed. */
  lemma {:induction false} CollapsedSlice(s: string, i: nat, j: nat)
    requires i <= j <= |s|
    ensures Collapsed(s) ==> Collapsed(s[i..j])
    decreases |s|
  {
    if Collapsed(s) {
      if j < |s| {
        CollapsedInit(s);
        CollapsedSlice(s[..|s| - 1], i, j);
        assert s[..|s| - 1][i..j] == s[i..j];
      } else if i > 0 {
        CollapsedSlice(s[1..], i - 1, j - 1);
        assert s[1..][i - 1..j - 1] == s[i..j];
      } else {
        assert s[i..j] == s;
      }
    }
  }

  /** Collapsing yields a collapsed text, empty only for "", starting with white space exactly when the input does. */
  lemma {:induction false} CollapseIsCollapsed(s: string)
    ensures Collapsed(Collapse(s))
    ensures Collapse(s) == [] <==> s == []
    ensures s != [] ==> (IsSpace(Collapse(s)[0]) <==> IsSpace(s[0]))
    decreases |s|
  {
    if s != [] {
      if IsSpace(s[0]) {
        var t := TrimStart(s[1..]);
        CollapseIsCollapsed(t);
        assert ([' '] + Collapse(t))[1..] == Collapse(t);
      } else {
        CollapseIsCollapsed(s[1..]);
        assert ([s[0]] + Collapse(s[1..]))[1..] == Collapse(s[1..]);
      }
    }
  }

  /** A collapsed text is its own collapse. */
  lemma {:induction false} CollapseFixed(s: string)
    requires Collapsed(s)
    ensures Collapse(s) == s
    decreases |s|
  {
    if s != [] {
      CollapseFixed(s[1..]);
      if IsSpace(s[0]) {
        assert TrimStart(s[1..]) == s[1..];
      }
    }
  }

  // ------------------------------------------------------------- normalising

  /** Trimming a collapsed text keeps it collapsed. */
  lemma TrimKeepsCollapsed(c: string)
    requires Collapsed(c)
    ensures Collapsed(Trim(c))
  {
    var e := TrimEnd(c);
    CollapsedSlice(c, 0, |e|);
    assert Collapsed(e);
    var t := TrimStart(e);
    CollapsedSlice(e, |e| - |t|, |e|);
    assert e[|e| - |t|..|e|] == t;
    assert Collapsed(t);
  }

  /** Normalised text has no white space at the ends and no two white-space characters in a row. */
  lemma NormalizeIsNormal(s: string)
    ensures Normal(Normalize(s))
  {
    CollapseIsCollapsed(s);
    TrimKeepsCollapsed(Collapse(s));
    TrimIsTrimmed(Collapse(s));
  }

  lemma {:induction false} NonSpaceAppend(a: string, b: string)
    ensures NonSpace(a + b) == NonSpace(a) + NonSpace(b)
    decreases |a|
  {
    if a == [] {
      assert a + b == b;
    } else {
      var t := a[1..];
      var h := if IsSpace(a[0]) then [] else [a[0]];
      NonSpaceAppend(t, b);
      assert (a + b)[0] == a[0];
      assert (a + b)[1..] == t + b;
      assert NonSpace(a + b) == h + NonSpace(t + b);
      assert NonSpace(a) == h + NonSpace(t);
    }
  }

  lemma {:induction false} CollapseKeepsNonSpace(s: string)
    ensures NonSpace(Collapse(s)) == NonSpace(s)
    decreases |s|
  {
    if s != [] {
      if IsSpace(s[0]) {
        var t := TrimStart(s[1..]);
        CollapseKeepsNonSpace(t);
        TrimStartKeepsNonSpace(s[1..]);
        assert ([' '] + Collapse(t))[1..] == Collapse(t);
      } else {
        CollapseKeepsNonSpace(s[1..]);
        assert ([s[0]] + Collapse(s[1..]))[1..] == Collapse(s[1..]);
      }
    }
  }

  lemma {:induction false} TrimStartKeepsNonSpace(s: string)
    ensures NonSpace(TrimStart(s)) == NonSpace(s)
    decreases |s|
  {
    if s != [] && IsSpace(s[0]) {
      TrimStartKeepsNonSpace(s[1..]);
    }
  }

  lemma {:induction false} TrimEndKeepsNonSpace(s: string)
    ensures NonSpace(TrimEnd(s)) == NonSpace(s)
    decreases |s|
  {
    if s != [] && IsSpace(s[|s| - 1]) {
      var p := s[..|s| - 1];
      TrimEndKeepsNonSpace(p);
      NonSpaceAppend(p, [s[|s| - 1]]);
      assert s == p + [s[|s| - 1]];
    }
  }

  /**
   * Normalising loses no visible character: the result and the input have
   * the same non-space characters in the same order.
   */
  lemma NormalizeKeepsNonSpace(s: string)
    ensures NonSpace(Normalize(s)) == NonSpace(s)
  {
    var c := Collapse(s);
    CollapseKeepsNonSpace(s);
    TrimEndKeepsNonSpace(c);
    TrimStartKeepsNonSpace(TrimEnd(c));
  }

  /** Trimming a text that has no white space at either end leaves it unchanged. */
  lemma TrimmedFixed(s: string)
    requires Trimmed(s)
    ensures Trim(s) == s
  {
    assert TrimEnd(s) == s;
  }

  /** Trimming removes one space in front of or behind a trimmed word. */
  lemma TrimOneSpace(w: string)
    requires Trimmed(w) && w != []
    ensures Trim(" " + w) == w && Trim(w + " ") == w
  {
    TrimLeadingSpace(w);
    TrimTrailingSpace(w);
  }

  /** One space in front of trimmed text is all that `trim` removes. */
  lemma TrimLeadingSpace(w: string)
    requires Trimmed(w) && w != []
    ensures Trim(" " + w) == w
  {
    TrimmedFixed(w);
    var x := " " + w;
    assert x[|x| - 1] == w[|w| - 1];
    assert TrimEnd(x) == x;
    assert x[1..] == w;
    assert TrimStart(w) == w;
  }

  /** One space after trimmed text is all that `trim` removes. */
  lemma TrimTrailingSpace(w: string)
    requires Trimmed(w) && w != []
    ensures Trim(w + " ") == w
  {
    TrimmedFixed(w);
    var x := w + " ";
    assert x[..|x| - 1] == w;
    assert TrimEnd(w) == w;
    assert TrimEnd(x) == w;
  }

  /** A text already in normal form is left unchanged by Normalize. */
  lemma NormalFixed(s: string)
    requires Normal(s)
    ensures Normalize(s) == s
  {
    CollapseFixed(s);
    assert TrimEnd(s) == s;
  }

  /** Normalising is idempotent, so text that was cleaned once is cleaned for good. */
  lemma NormalizeIdempotent(s: string)
    ensures Normalize(Normalize(s)) == Normalize(s)
  {
    NormalizeIsNormal(s);
    NormalFixed(Normalize(s));
  }

  /** The non-space characters of a text are none exactly when the text is blank. */
  lemma {:induction false} NonSpaceBlank(s: string)
    ensures NonSpace(s) == [] <==> Blank(s)
    decreases |s|
  {
    if s != [] {
      NonSpaceBlank(s[1..]);
      assert forall i :: 1 <= i < |s| ==> s[i] == s[1..][i - 1];
    }
  }

  /** Text made only of white space, and only such text, normalises to "". */
  lemma NormalizeBlank(s: string)
    ensures Normalize(s) == [] <==> Blank(s)
  {
    NormalizeKeepsNonSpace(s);
    NonSpaceBlank(s);
    var r := Normalize(s);
    if r != [] {
      NormalizeIsNormal(s);
      NonSpaceBlank(r);
      assert !IsSpace(r[0]);
    }
  }

  /** Dropping white space never lengthens a text. */
  lemma {:induction false} NonSpaceShorter(s: string)
    ensures |NonSpace(s)| <= |s|
  {
    if s != [] {
      NonSpaceShorter(s[1..]);
    }
  }

  /** Collapsing never lengthens a text: each run becomes one space. */
  lemma {:induction false} CollapseShorter(s: string)
    ensures |Collapse(s)| <= |s|
    decreases |s|
  {
    if s != [] {
      if IsSpace(s[0]) {
        CollapseShorter(TrimStart(s[1..]));
      } else {
        CollapseShorter(s[1..]);
      }
    }
  }

  /** Normalising never lengthens a text, and keeps at least its visible characters. */
  lemma NormalizeLength(s: string)
    ensures |NonSpace(s)| <= |Normalize(s)| <= |s|
  {
    CollapseShorter(s);
    NormalizeKeepsNonSpace(s);
    NonSpaceShorter(Normalize(s));
  }

  /** Two collapsed texts joined where at most one side has white space make a collapsed text. */
  lemma {:induction false} CollapsedJoin(a: string, b: string)
    requires Collapsed(a) && Collapsed(b)
    requires a == [] || b == [] || !IsSpace(a[|a| - 1]) || !IsSpace(b[0])
    ensures Collapsed(a + b)
    decreases |a|
  {
    if a == [] {
      assert a + b == b;
    } else {
      CollapsedJoin(a[1..], b);
      assert (a + b)[1..] == a[1..] + b;
      if |a| == 1 && b != [] {
        assert (a + b)[1] == b[0];
      }
    }
  }

  /** A text without any white space is collapsed. */
  lemma {:induction false} SpacelessCollapsed(s: string)
    requires forall i :: 0 <= i < |s| ==> !IsSpace(s[i])
    ensures Collapsed(s)
    decreases |s|
  {
    if s != [] {
      assert forall i :: 0 <= i < |s| - 1 ==> s[1..][i] == s[i + 1];
      SpacelessCollapsed(s[1..]);
    }
  }

  // ------------------------------------------- white-space runs, one by one

  /** Text ending in a visible character passes `trimStart` of what follows it untouched. */
  lemma {:induction false} TrimStartAppend(x: string, y: string)
    requires x != [] && !IsSpace(x[|x| - 1])
    ensures TrimStart(x + y) == TrimStart(x) + y
    decreases |x|
  {
    var xy := x + y;
    assert xy[0] == x[0];
    if IsSpace(x[0]) {
      var t := x[1..];
      assert |x| > 1 && t[|t| - 1] == x[|x| - 1];
      assert xy[1..] == t + y;
      TrimStartAppend(t, y);
      assert TrimStart(xy) == TrimStart(t + y);
      assert TrimStart(x) == TrimStart(t);
    } else {
      assert TrimStart(xy) == xy;
    }
  }

  /** White space in front of text that starts visibly is all that `trimStart` removes. */
  lemma {:induction false} TrimStartBlank(u: string, b: string)
    requires Blank(u) && (b == [] || !IsSpace(b[0]))
    ensures TrimStart(u + b) == b
    decreases |u|
  {
    if u == [] {
      assert u + b == b;
    } else {
      assert (u + b)[0] == u[0];
      assert (u + b)[1..] == u[1..] + b;
      TrimStartBlank(u[1..], b);
    }
  }

  /** No white-space run crosses a visible last character, so the collapse splits there. */
  lemma {:induction false} CollapseAppend(x: string, y: string)
    requires x == [] || !IsSpace(x[|x| - 1])
    ensures Collapse(x + y) == Collapse(x) + Collapse(y)
    decreases |x|
  {
    if x == [] {
      assert x + y == y;
    } else {
      var h, r := CollapseStep(x, y);
      CollapseAppend(r, y);
      ConsAppend(h, Collapse(r), Collapse(y), Collapse(x + y), Collapse(x), Collapse(r + y));
    }
  }

  /** Putting a character in front commutes with appending. */
  lemma ConsAppend(h: char, a: string, b: string, hab: string, ha: string, ab: string)
    requires hab == [h] + ab && ha == [h] + a && ab == a + b
    ensures hab == ha + b
  {
  }

  /**
   * One step of CollapseAppend: the first character, or the first run, of
   * `x` becomes `h` alike in `x` and in `x + y`, and `r` is what is left of `x`.
   */
  lemma CollapseStep(x: string, y: string) returns (h: char, r: string)
    requires x != [] && !IsSpace(x[|x| - 1])
    ensures Collapse(x + y) == [h] + Collapse(r + y) && Collapse(x) == [h] + Collapse(r)
    ensures |r| < |x| && (r == [] || !IsSpace(r[|r| - 1]))
  {
    var xy := x + y;
    var t := x[1..];
    assert xy[0] == x[0];
    assert xy[1..] == t + y;
    if IsSpace(x[0]) {
      assert |x| > 1 && t[|t| - 1] == x[|x| - 1];
      TrimStartAppend(t, y);
      h, r := ' ', TrimStart(t);
      assert r == [] || r[|r| - 1] == t[|t| - 1];
    } else {
      h, r := x[0], t;
    }
  }

  /**
   * `replace(/\s+/g, " ")` puts one space where each maximal run of white
   * space stood: a run between visible text on both sides becomes exactly
   * one space there, and the text on either side is collapsed on its own.
   */
  lemma CollapseRun(a: string, w: string, b: string)
    requires Blank(w) && w != []
    requires a == [] || !IsSpace(a[|a| - 1])
    requires b == [] || !IsSpace(b[0])
    ensures Collapse(a + w + b) == Collapse(a) + " " + Collapse(b)
  {
    Associative(a, w, b);
    CollapseAppend(a, w + b);
    CollapseLeadingRun(w, b);
    Associative(Collapse(a), " ", Collapse(b));
  }

  /** Appending is associative. */
  lemma Associative(a: string, b: string, c: string)
    ensures a + (b + c) == a + b + c
  {
  }

  /** A leading run of white space becomes one space. */
  lemma CollapseLeadingRun(w: string, b: string)
    requires Blank(w) && w != []
    requires b == [] || !IsSpace(b[0])
    ensures Collapse(w + b) == " " + Collapse(b)
  {
    var wb := w + b;
    assert wb[0] == w[0];
    assert wb[1..] == w[1..] + b;
    assert Blank(w[1..]) by {
      assert forall i :: 0 <= i < |w| - 1 ==> w[1..][i] == w[i + 1];
    }
    TrimStartBlank(w[1..], b);
  }

  // -------------------------------------------- lengths as JavaScript counts

  /** The UTF-16 code units of one character: two outside the Basic Multilingual Plane. */
  function Units(c: char): nat {
    if c as int >= 0x1_0000 then 2 else 1
  }

  /**
   * `length` of a JavaScript string: the number of UTF-16 code units, which
   * exceeds the number of characters by one for each character outside the
   * Basic Multilingual Plane.
   */
  function Utf16Length(s: string): (n: nat)
    ensures |s| <= n <= 2 * |s|
    ensures n == |s| <==> forall i :: 0 <= i < |s| ==> s[i] as int < 0x1_0000
  {
    if s == [] then 0
    else
      assert forall i :: 1 <= i < |s| ==> s[i] == s[1..][i - 1];
      Units(s[0]) + Utf16Length(s[1..])
  }

  /** Code units add up over a concatenation. */
  lemma {:induction false} Utf16Append(a: string, b: string)
    ensures Utf16Length(a + b) == Utf16Length(a) + Utf16Length(b)
    decreases |a|
  {
    if a == [] {
      assert a + b == b;
    } else {
      assert (a + b)[0] == a[0];
      assert (a + b)[1..] == a[1..] + b;
      Utf16Append(a[1..], b);
    }
  }

  /** Trimming never adds code units. */
  lemma TrimUnits(s: string)
    ensures Utf16Length(TrimStart(s)) <= Utf16Length(s)
    ensures Utf16Length(TrimEnd(s)) <= Utf16Length(s)
  {
    var t := TrimStart(s);
    assert s == s[..|s| - |t|] + t;
    Utf16Append(s[..|s| - |t|], t);
    var e := TrimEnd(s);
    assert s == e + s[|e|..];
    Utf16Append(e, s[|e|..]);
  }

  /** Collapsing never adds code units: each run, of one code unit per character, becomes one space. */
  lemma {:induction false} CollapseUnits(s: string)
    ensures Utf16Length(Collapse(s)) <= Utf16Length(s)
    decreases |s|
  {
    if s != [] {
      var c := Collapse(s);
      assert c[0] == (if IsSpace(s[0]) then ' ' else s[0]);
      assert c[1..] == if IsSpace(s[0]) then Collapse(TrimStart(s[1..])) else Collapse(s[1..]);
      if IsSpace(s[0]) {
        TrimUnits(s[1..]);
        CollapseUnits(TrimStart(s[1..]));
      } else {
        CollapseUnits(s[1..]);
      }
    }
  }

  /** Normalising never adds code units. */
  lemma NormalizeUnits(s: string)
    ensures Utf16Length(Normalize(s)) <= Utf16Length(s)
  {
    CollapseUnits(s);
    var c := Collapse(s);
    TrimUnits(c);
    TrimUnits(TrimEnd(c));
  }

  /** ASCII lower-casing, enough for comparing key names with single letters. */
  function LowerAscii(s: string): (r: string)
    ensures |r| == |s|
    ensures forall i :: 0 <= i < |s| ==> r[i] == if 'A' <= s[i] <= 'Z' then (s[i] as int + 32) as char else s[i]
  {
    if s == [] then []
    else [if 'A' <= s[0] <= 'Z' then (s[0] as int + 32) as char else s[0]] + LowerAscii(s[1..])
  }
}
