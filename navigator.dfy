/**
 * The validity filter and the sequence navigator: which elements the reader
 * may land on, and which one the next key press selects.
 */
module Navigator {
  import opened Wrappers
  import opened Text
  import opened Dom
  import opened Label

  /** The shortest label worth announcing, in UTF-16 code units as JavaScript's `length` counts them. */
  const MinLabelLength := 3

  /**
   * `isValidElement`: rejects a missing element, an element with zero width or
   * height, one positioned `fixed` or `sticky`, and one whose label is shorter
   * than three UTF-16 code units.
   */
  predicate IsValidElement(el: Option<Element>) {
    match el
    case None => false
    case Some(e) =>
      e.nonZeroSize &&
      e.position != Fixed && e.position != Sticky &&
      Utf16Length(ExtractLabel(e)) >= MinLabelLength
  }

  /** `e` is one of the elements that navigating with `sel` can reach. */
  predicate Eligible(sel: Selector, e: Element) {
    Matches(sel, e) && IsValidElement(Some(e))
  }

  /** `sub` is `s` with some elements left out and the rest kept in order. */
  predicate Subsequence(sub: seq<Element>, s: seq<Element>)
    decreases |s|
  {
    if sub == [] then true
    else if s == [] then false
    else (sub[0] == s[0] && Subsequence(sub[1..], s[1..])) || Subsequence(sub, s[1..])
  }

  /** `Array.prototype.filter`: the elements that `keep` accepts, in their order. */
  function Filter(s: Document, keep: Element -> bool): Document {
    if s == [] then []
    else if keep(s[0]) then [s[0]] + Filter(s[1..], keep)
    else Filter(s[1..], keep)
  }

  /** The filter keeps exactly the accepted elements. */
  lemma {:induction false} FilterExact(s: Document, keep: Element -> bool)
    ensures forall e :: e in Filter(s, keep) <==> e in s && keep(e)
  {
    if s != [] {
      FilterExact(s[1..], keep);
      assert forall e :: e in s <==> e == s[0] || e in s[1..];
    }
  }

  /** The filter keeps the order of what it keeps. */
  lemma {:induction false} FilterInOrder(s: Document, keep: Element -> bool)
    ensures Subsequence(Filter(s, keep), s)
  {
    if s != [] {
      FilterInOrder(s[1..], keep);
      var c := Filter(s, keep);
      if !keep(s[0]) && c != [] {
        assert Subsequence(c, s[1..]);
      }
    }
  }

  /** A node that is not in the input is not in the output. */
  lemma {:induction false} FilterAvoids(s: Document, keep: Element -> bool, id: Id)
    requires forall k :: 0 <= k < |s| ==> s[k].id != id
    ensures forall k :: 0 <= k < |Filter(s, keep)| ==> Filter(s, keep)[k].id != id
  {
    if s != [] {
      assert forall k :: 0 <= k < |s| - 1 ==> s[1..][k] == s[k + 1];
      FilterAvoids(s[1..], keep, id);
    }
  }

  /** The filter keeps distinct nodes distinct. */
  lemma {:induction false} FilterDistinct(s: Document, keep: Element -> bool)
    requires DistinctIds(s)
    ensures DistinctIds(Filter(s, keep))
  {
    if s != [] {
      var tail := s[1..];
      assert forall k :: 0 <= k < |tail| ==> tail[k] == s[k + 1];
      FilterDistinct(tail, keep);
      if keep(s[0]) {
        var rest := Filter(tail, keep);
        FilterAvoids(tail, keep, s[0].id);
        var c := [s[0]] + rest;
        forall i, j | 0 <= i < j < |c| ensures c[i].id != c[j].id {
          assert c[j] == rest[j - 1];
          if i > 0 {
            assert c[i] == rest[i - 1];
          }
        }
      }
    }
  }

  /** The filter that `getNext` applies to the matches of `sel`. */
  function Keep(sel: Selector): Element -> bool {
    e => Eligible(sel, e)
  }

  /**
   * `Array.from(document.querySelectorAll(sel)).filter(isValidElement)`: the
   * matching elements in document order, keeping those that pass the filter.
   */
  function Candidates(doc: Document, sel: Selector): Document {
    Filter(doc, Keep(sel))
  }

  /** The candidates are exactly the eligible elements of the page. */
  lemma CandidatesExact(doc: Document, sel: Selector)
    ensures forall e :: e in Candidates(doc, sel) <==> e in doc && Eligible(sel, e)
  {
    FilterExact(doc, Keep(sel));
  }

  /** The eligible elements keep their document order. */
  lemma CandidatesInOrder(doc: Document, sel: Selector)
    ensures Subsequence(Candidates(doc, sel), doc)
  {
    FilterInOrder(doc, Keep(sel));
  }

  /** Filtering keeps distinct nodes distinct. */
  lemma CandidatesDistinct(doc: Document, sel: Selector)
    requires DistinctIds(doc)
    ensures DistinctIds(Candidates(doc, sel))
  {
    FilterDistinct(doc, Keep(sel));
  }

  /** `indexOf` by identity: the first position holding `id`, or -1. */
  function IndexOf(c: Document, id: Id): (k: int)
    ensures -1 <= k < |c|
    ensures k == -1 <==> forall j :: 0 <= j < |c| ==> c[j].id != id
    ensures k >= 0 ==> c[k].id == id && forall j :: 0 <= j < k ==> c[j].id != id
  {
    if c == [] then -1
    else if c[0].id == id then 0
    else
      var k := IndexOf(c[1..], id);
      if k == -1 then -1 else k + 1
  }

  /**
   * `getNext(sel, current)`: None when nothing is eligible; otherwise the
   * eligible element after `current`, wrapping round to the first, or the
   * first when `current` is not among the eligible elements (absent, removed
   * from the page, or of another kind).
   */
  function GetNext(doc: Document, sel: Selector, current: Option<Id>): (r: Option<Element>)
    ensures r.None? <==> forall e :: e in doc ==> !Eligible(sel, e)
    ensures r.Some? ==> r.value in doc && Eligible(sel, r.value)
  {
    CandidatesExact(doc, sel);
    var elements := Candidates(doc, sel);
    var r := Step(elements, current);
    assert r.Some? ==> r.value in elements;
    assert elements != [] ==> elements[0] in elements;
    r
  }

  /**
   * The step over the filtered list:
   * `idx === -1 ? elements[0] : elements[idx + 1] || elements[0]`.
   */
  function Step(elements: Document, current: Option<Id>): (r: Option<Element>)
    ensures r.None? <==> elements == []
    ensures r.Some? ==> r.value in elements
  {
    if |elements| == 0 then None
    else
      var idx := if current.Some? then IndexOf(elements, current.value) else -1;
      if idx == -1 then Some(elements[0])
      else if idx + 1 < |elements| then Some(elements[idx + 1])
      else Some(elements[0])
  }

  /** From position i of a list of distinct nodes, the step goes to i + 1, or from the last to the first. */
  lemma StepAdvances(elements: Document, i: nat)
    requires DistinctIds(elements) && i < |elements|
    ensures Step(elements, Some(elements[i].id)) == Some(if i + 1 < |elements| then elements[i + 1] else elements[0])
  {
    IndexOfDistinct(elements, i);
  }

  /** When `current` is not an eligible element, navigation starts over at the first. */
  lemma GetNextRestarts(doc: Document, sel: Selector, current: Option<Id>)
    requires current.None? || forall e :: e in doc && Eligible(sel, e) ==> e.id != current.value
    requires exists e :: e in doc && Eligible(sel, e)
    ensures var c := Candidates(doc, sel); c != [] && GetNext(doc, sel, current) == Some(c[0])
  {
    var c := Candidates(doc, sel);
    CandidatesExact(doc, sel);
    if current.Some? {
      assert forall j :: 0 <= j < |c| ==> c[j].id != current.value by {
        forall j | 0 <= j < |c| ensures c[j].id != current.value {
          assert c[j] in c;
        }
      }
    }
  }

  /**
   * From the eligible element at position i, navigation moves to position
   * i + 1, and from the last one back to the first.
   */
  lemma GetNextSteps(doc: Document, sel: Selector, i: nat)
    requires DistinctIds(doc)
    requires i < |Candidates(doc, sel)|
    ensures var c := Candidates(doc, sel);
            GetNext(doc, sel, Some(c[i].id)) == Some(if i + 1 < |c| then c[i + 1] else c[0])
  {
    CandidatesDistinct(doc, sel);
    StepAdvances(Candidates(doc, sel), i);
  }

  /** In a list of distinct nodes, a node is found at its own position. */
  lemma IndexOfDistinct(c: Document, i: nat)
    requires DistinctIds(c) && i < |c|
    ensures IndexOf(c, c[i].id) == i
  {
  }

  /**
   * An element with no text of its own is kept or dropped on its tag name
   * alone: an empty `p`, `a` or `h1` is never valid, while an empty `button`,
   * `img` or `nav` is valid whenever it is visible and in the page flow.
   */
  lemma TextlessValidity(e: Element)
    requires Textless(e) && PlainName(e.tag)
    ensures IsValidElement(Some(e)) <==>
              e.nonZeroSize && e.position != Fixed && e.position != Sticky && Utf16Length(e.tag) >= MinLabelLength
    ensures e.tag == "p" || e.tag == "a" || e.tag == "h1" ==> !IsValidElement(Some(e))
  {
    TextlessLabelIsTag(e);
  }
  /**
   * For a visible element in the page flow the label length decides: a
   * winning source with at least three visible characters makes it valid,
   * and one shorter than three UTF-16 code units makes it invalid. Code units
   * are what count: a label of characters outside the Basic Multilingual
   * Plane is valid from two characters on.
   */
  lemma ValidityByText(e: Element)
    requires e.nonZeroSize && e.position != Fixed && e.position != Sticky
    ensures |NonSpace(LabelSource(e))| >= MinLabelLength ==> IsValidElement(Some(e))
    ensures Utf16Length(LabelSource(e)) < MinLabelLength ==> !IsValidElement(Some(e))
    ensures IsValidElement(Some(e)) <==> Utf16Length(ExtractLabel(e)) >= MinLabelLength
  {
    NormalizeLength(LabelSource(e));
    NormalizeUnits(LabelSource(e));
  }

  /**
   * Two characters outside the Basic Multilingual Plane are four code units,
   * so an aria-label of two emoji is long enough.
   */
  lemma TwoEmojiLabelIsValid(e: Element)
    requires e.nonZeroSize && e.position != Fixed && e.position != Sticky
    requires e.ariaLabel == Some("\U{1F600}\U{1F600}")
    ensures IsValidElement(Some(e)) && |ExtractLabel(e)| == 2
  {
    var l := "\U{1F600}\U{1F600}";
    assert LabelSource(e) == l;
    assert !IsSpace(l[0]) && !IsSpace(l[1]);
    SpacelessCollapsed(l);
    NormalFixed(l);
    assert Utf16Length(l) == 4;
  }

  /** Hidden, zero-sized, fixed and sticky elements are never valid, whatever their label. */
  lemma OutOfFlowIsInvalid(e: Element)
    requires !e.nonZeroSize || e.position == Fixed || e.position == Sticky
    ensures !IsValidElement(Some(e)) && !IsValidElement(None)
  {
  }
}
