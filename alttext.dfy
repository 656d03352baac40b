/**
 * The synthetic image description (`generateAltText`): a name made up from
 * the file name in the image's source URL. Nothing in it waits, so it is a
 * total function of the element.
 */
module AltText {
  import opened Dom

  const NoDescription := "Image with no description"
  const Prefix := "Image: "

  /** `getAttribute("src") || src || ""`: the attribute when it is non-empty, else the resolved property. */
  function SourceOf(e: Element): string {
    if e.src.Some? && e.src.value != [] then e.src.value else e.resolvedSrc
  }

  /** The position just after the last '/' among `s[..i]`, or 0 when there is none. */
  function SegmentStart(s: string, i: nat): (k: nat)
    requires i <= |s|
    ensures k <= i
    ensures forall j :: k <= j < i ==> s[j] != '/'
    ensures k == 0 || s[k - 1] == '/'
    decreases i
  {
    if i == 0 then 0
    else if s[i - 1] == '/' then i
    else SegmentStart(s, i - 1)
  }

  /**
   * `split("/").pop()`: the part of `s` after its last '/', or all of `s`
   * when it has none. The three clauses determine the result uniquely.
   */
  function LastSegment(s: string): (r: string)
    ensures |r| <= |s| && r == s[|s| - |r|..]
    ensures forall i :: 0 <= i < |r| ==> r[i] != '/'
    ensures |r| == |s| || s[|s| - |r| - 1] == '/'
  {
    var k := SegmentStart(s, |s|);
    assert forall i :: 0 <= i < |s| - k ==> s[k..][i] == s[k + i];
    s[k..]
  }

  /** `replace(/[-_]/g, " ")`: every hyphen and underscore becomes a space, nothing else changes. */
  function SpaceOut(s: string): (r: string)
    ensures |r| == |s|
    ensures forall i :: 0 <= i < |s| ==> r[i] == if s[i] == '-' || s[i] == '_' then ' ' else s[i]
  {
    seq(|s|, i requires 0 <= i < |s| => if s[i] == '-' || s[i] == '_' then ' ' else s[i])
  }

  /**
   * `split(".")[0]`: the part of `s` before its first '.', or all of `s`
   * when it has none. The clauses determine the result uniquely.
   */
  function BeforeDot(s: string): (r: string)
    ensures |r| <= |s| && r == s[..|r|]
    ensures forall i :: 0 <= i < |r| ==> r[i] != '.'
    ensures |r| == |s| || s[|r|] == '.'
  {
    if s == [] || s[0] == '.' then []
    else [s[0]] + BeforeDot(s[1..])
  }

  /** `generateAltText`: "Image: " and the cleaned file name, or a fixed phrase when there is no file name. */
  function GenerateAltText(e: Element): string {
    var filename := LastSegment(SourceOf(e));
    if filename != [] then Prefix + BeforeDot(SpaceOut(filename)) else NoDescription
  }

  /** A name free of the characters that the clean-up removes or replaces. */
  predicate CleanName(name: string) {
    forall i :: 0 <= i < |name| ==> name[i] != '/' && name[i] != '.' && name[i] != '-' && name[i] != '_'
  }

  /** The file name is empty exactly when the source is empty or ends in '/'. */
  lemma NoFilenameIff(s: string)
    ensures LastSegment(s) == [] <==> s == [] || s[|s| - 1] == '/'
  {
  }

  /**
   * The description is the fixed phrase exactly when there is no file name;
   * otherwise it is "Image: " followed by the file name cut at its first '.',
   * with hyphens and underscores read as spaces, and that name is clean.
   */
  lemma AltTextShape(e: Element)
    ensures var f := LastSegment(SourceOf(e));
            var d := GenerateAltText(e);
            (f == [] ==> d == NoDescription) &&
            (f != [] ==>
              |Prefix| <= |d| && d[..|Prefix|] == Prefix &&
              var name := d[|Prefix|..];
              CleanName(name) &&
              |name| <= |f| && (|name| == |f| || f[|name|] == '.') &&
              forall i :: 0 <= i < |name| ==> name[i] == if f[i] == '-' || f[i] == '_' then ' ' else f[i])
  {
    var f := LastSegment(SourceOf(e));
    if f != [] {
      var d := GenerateAltText(e);
      var spaced := SpaceOut(f);
      var name := BeforeDot(spaced);
      assert d == Prefix + name;
      assert d[|Prefix|..] == name;
      forall i | 0 <= i < |name|
        ensures name[i] == (if f[i] == '-' || f[i] == '_' then ' ' else f[i])
        ensures name[i] != '/' && name[i] != '.' && name[i] != '-' && name[i] != '_'
      {
        assert name[i] == spaced[i];
      }
      if |name| < |f| {
        assert spaced[|name|] == '.';
      }
    }
  }

  /** Hyphens and underscores are replaced one character at a time, so the replacement splits over a join. */
  lemma SpaceOutAppend(a: string, b: string)
    ensures SpaceOut(a + b) == SpaceOut(a) + SpaceOut(b)
  {
    var joined, parts := SpaceOut(a + b), SpaceOut(a) + SpaceOut(b);
    forall i | 0 <= i < |a + b|
      ensures joined[i] == parts[i]
    {
      if i < |a| {
        assert (a + b)[i] == a[i] && parts[i] == SpaceOut(a)[i];
      } else {
        assert (a + b)[i] == b[i - |a|] && parts[i] == SpaceOut(b)[i - |a|];
      }
    }
  }

  /** A dot-free front part is kept whole, and the cut happens in what follows it. */
  lemma {:induction false} BeforeDotAppend(a: string, b: string)
    requires '.' !in a
    ensures BeforeDot(a + b) == a + BeforeDot(b)
    decreases |a|
  {
    if a != [] {
      assert a[0] in a;
      assert a[1..] + b == (a + b)[1..];
      BeforeDotAppend(a[1..], b);
    } else {
      assert a + b == b;
    }
  }

  /** The file name of a path is what follows its last '/'. */
  lemma {:induction false} LastSegmentOfPath(dir: string, f: string)
    requires forall i :: 0 <= i < |f| ==> f[i] != '/'
    ensures LastSegment(dir + "/" + f) == f
  {
    var s := dir + "/" + f;
    assert s[|dir|] == '/';
    assert forall i :: 0 <= i < |f| ==> s[|dir| + 1 + i] == f[i];
    assert s[|s| - |f|..] == f;
  }

  /** Hyphens and underscores are the only characters the replacement touches. */
  lemma SpaceOutKeeps(s: string)
    requires forall i :: 0 <= i < |s| ==> s[i] != '-' && s[i] != '_'
    ensures SpaceOut(s) == s
  {
  }

  /** Two clean words joined by '-' and followed by an extension are cleaned to the words with a space between. */
  lemma CleanHyphenated(w1: string, w2: string, ext: string)
    requires CleanName(w1) && CleanName(w2)
    ensures BeforeDot(SpaceOut(w1 + "-" + w2 + "." + ext)) == w1 + " " + w2
  {
    var name := w1 + "-" + w2;
    var spaced := w1 + " " + w2;
    var tail := "." + ext;
    assert w1 + "-" + w2 + "." + ext == name + tail;
    SpaceOutAppend(name, tail);
    forall i | 0 <= i < |name|
      ensures SpaceOut(name)[i] == spaced[i]
    {
      if i < |w1| {
        assert name[i] == w1[i] && spaced[i] == w1[i];
      } else if i > |w1| {
        assert name[i] == w2[i - |w1| - 1] && spaced[i] == w2[i - |w1| - 1];
      }
    }
    assert SpaceOut(name) == spaced;
    assert '.' !in spaced by {
      assert forall i :: 0 <= i < |spaced| ==> spaced[i] != '.';
    }
    assert SpaceOut(tail)[0] == '.';
    BeforeDotAppend(spaced, SpaceOut(tail));
  }

  /**
   * A source whose file name is two clean words joined by '-' and followed
   * by an extension is described as those two words separated by a space.
   */
  lemma HyphenatedName(e: Element, dir: string, w1: string, w2: string, ext: string)
    requires CleanName(w1) && CleanName(w2)
    requires forall i :: 0 <= i < |ext| ==> ext[i] != '/'
    requires SourceOf(e) == dir + "/" + w1 + "-" + w2 + "." + ext
    ensures GenerateAltText(e) == Prefix + (w1 + " " + w2)
  {
    var f := w1 + "-" + w2 + "." + ext;
    assert SourceOf(e) == dir + "/" + f;
    forall i | 0 <= i < |f|
      ensures f[i] != '/'
    {
      if i < |w1| {
        assert f[i] == w1[i];
      } else if |w1| < i < |w1| + 1 + |w2| {
        assert f[i] == w2[i - |w1| - 1];
      } else if i > |w1| + 1 + |w2| {
        assert f[i] == ext[i - |w1| - |w2| - 2];
      }
    }
    LastSegmentOfPath(dir, f);
    assert |f| > 0;
    assert LastSegment(SourceOf(e)) == f;
    CleanHyphenated(w1, w2, ext);
  }
}
