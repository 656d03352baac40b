/**
 * The label extractor: the text the reader announces for an element, taken
 * from the first non-empty source in a fixed order and cleaned of extra
 * white space.
 */
module Label {
  import opened Wrappers
  import opened Text
  import opened Dom

  /** JavaScript truthiness of an attribute value: present and not "". */
  predicate Truthy(v: Option<string>) {
    v.Some? && v.value != []
  }

  /**
   * The `alt` property: it reflects the attribute on the elements that have
   * one (images, image-map areas and inputs) and is undefined elsewhere, which
   * is falsy just like "".
   */
  function AltProperty(e: Element): string {
    if (e.tag == "img" || e.tag == "area" || e.tag == "input") && e.alt.Some? then e.alt.value else ""
  }

  /**
   * The `||` chain: aria-label, alt, innerText, textContent, title, and the
   * lower-case tag name as the last resort. The first truthy one wins.
   */
  function LabelSource(e: Element): string {
    if Truthy(e.ariaLabel) then e.ariaLabel.value
    else if AltProperty(e) != [] then AltProperty(e)
    else if e.innerText != [] then e.innerText
    else if e.textContent != [] then e.textContent
    else if Truthy(e.title) then e.title.value
    else e.tag
  }

  /** `extractLabel`: the winning source with its white space collapsed and trimmed. */
  function ExtractLabel(e: Element): string {
    var text := LabelSource(e);
    if text == [] then "" else Normalize(text)
  }

  /**
   * The label has no white space at either end and no two white-space
   * characters in a row, and it keeps every visible character of the winning
   * source, in order.
   */
  lemma LabelIsClean(e: Element)
    ensures Normal(ExtractLabel(e))
    ensures NonSpace(ExtractLabel(e)) == NonSpace(LabelSource(e))
  {
    NormalizeIsNormal(LabelSource(e));
    NormalizeKeepsNonSpace(LabelSource(e));
  }

  /** Labels are already clean: normalising a label again changes nothing. */
  lemma LabelIsStable(e: Element)
    ensures Normalize(ExtractLabel(e)) == ExtractLabel(e)
  {
    LabelIsClean(e);
    NormalFixed(ExtractLabel(e));
  }

  /**
   * A non-empty aria-label made only of white space is truthy, so it wins over
   * every other source and the label comes out empty.
   */
  lemma BlankAriaLabelWins(e: Element)
    requires e.ariaLabel.Some? && e.ariaLabel.value != []
    requires Blank(e.ariaLabel.value)
    ensures ExtractLabel(e) == ""
  {
    NormalizeBlank(e.ariaLabel.value);
  }

  /** A tag name: non-empty and free of white space. */
  predicate PlainName(s: string) {
    s != [] && forall i :: 0 <= i < |s| ==> !IsSpace(s[i])
  }

  /** An element that offers no text of its own at all. */
  predicate Textless(e: Element) {
    !Truthy(e.ariaLabel) && AltProperty(e) == [] && e.innerText == [] && e.textContent == [] && !Truthy(e.title)
  }

  /** With no text of its own, an element is labelled by its tag name. */
  lemma TextlessLabelIsTag(e: Element)
    requires Textless(e) && PlainName(e.tag)
    ensures ExtractLabel(e) == e.tag
  {
    assert LabelSource(e) == e.tag;
    var t := e.tag;
    SpacelessCollapsed(t);
    NormalFixed(t);
  }
}
