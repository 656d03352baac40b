/**
 * An abstract snapshot of the page: the elements the reader can look at, in
 * document order, each reduced to the attributes and measurements that
 * content.js consults. CSS selectors become predicates over these records.
 */
module Dom {
  import opened Wrappers
  import opened Text

  /** Node identity: JavaScript compares elements by reference, the model by id. */
  type Id = nat

  /** The computed `position` style of an element. */
  datatype Position = Static | Relative | Absolute | Fixed | Sticky

  /**
   * One element. `tag` is the lower-case tag name; `ariaLabel`, `alt`, `title`
   * and `src` are the attributes (None when absent); `resolvedSrc` is the
   * element's `src` property; `inputType` is the `type` attribute as written
   * (selectors compare it without regard to ASCII case); `nonZeroSize`
   * says that the bounding box has non-zero width and non-zero height.
   */
  datatype Element = Element(
    id: Id,
    tag: string,
    role: Option<string>,
    hasHref: bool,
    inputType: Option<string>,
    ariaLabel: Option<string>,
    alt: Option<string>,
    title: Option<string>,
    src: Option<string>,
    resolvedSrc: string,
    innerText: string,
    textContent: string,
    nonZeroSize: bool,
    position: Position)

  /** The elements of the page, in document order. */
  type Document = seq<Element>

  /** No node occurs twice in a document. */
  predicate DistinctIds(doc: Document) {
    forall i, j :: 0 <= i < j < |doc| ==> doc[i].id != doc[j].id
  }

  /** The selector groups that the navigation keys hand to `querySelectorAll`. */
  datatype Selector =
    | Paragraph   // "p"
    | Heading     // "h1,h2,h3,h4,h5,h6"
    | Link        // "a[href]"
    | Button      // "button,[role='button'],input[type='button'],input[type='submit']"
    | Landmark    // "main, nav, footer, aside, section"
    | Image       // "img"

  predicate IsHeadingTag(tag: string) {
    tag == "h1" || tag == "h2" || tag == "h3" || tag == "h4" || tag == "h5" || tag == "h6"
  }

  /** Whether `e` matches the selector group `sel`. */
  predicate Matches(sel: Selector, e: Element) {
    match sel
    case Paragraph => e.tag == "p"
    case Heading => IsHeadingTag(e.tag)
    case Link => e.tag == "a" && e.hasHref
    case Button =>
      e.tag == "button" || e.role == Some("button") ||
      (e.tag == "input" && e.inputType.Some? &&
       (LowerAscii(e.inputType.value) == "button" || LowerAscii(e.inputType.value) == "submit"))
    case Landmark =>
      e.tag == "main" || e.tag == "nav" || e.tag == "footer" || e.tag == "aside" || e.tag == "section"
    case Image => e.tag == "img"
  }

  /** The single-element lookups: `closest(...)` for a click and the two `querySelector` calls of skip-to-main. */
  datatype Query =
    | ClickTarget  // "p, h1, h2, h3, h4, h5, h6, a, button"
    | MainTag      // "main"
    | MainRole     // "[role='main']"

  predicate Picks(q: Query, e: Element) {
    match q
    case ClickTarget => e.tag == "p" || IsHeadingTag(e.tag) || e.tag == "a" || e.tag == "button"
    case MainTag => e.tag == "main"
    case MainRole => e.role == Some("main")
  }

  /** The first element of `s` that `q` picks, if any. */
  function First(s: seq<Element>, q: Query): (r: Option<Element>)
    ensures r.None? <==> forall k :: 0 <= k < |s| ==> !Picks(q, s[k])
    ensures r.Some? ==> exists k :: 0 <= k < |s| && s[k] == r.value && Picks(q, r.value) &&
                          forall j :: 0 <= j < k ==> !Picks(q, s[j])
  {
    if s == [] then None
    else if Picks(q, s[0]) then Some(s[0])
    else First(s[1..], q)
  }

  /**
   * `closest(...)` on a click target: `chain` is the target followed by its
   * ancestors, innermost first.
   */
  function Closest(chain: seq<Element>): Option<Element> {
    First(chain, ClickTarget)
  }

  /**
   * `document.querySelector("main") || document.querySelector("[role='main']")`:
   * the first `main` element, or else the first element with role "main".
   */
  function FindMain(doc: Document): (r: Option<Element>)
    ensures r.None? <==> forall k :: 0 <= k < |doc| ==> !Picks(MainTag, doc[k]) && !Picks(MainRole, doc[k])
    ensures r.Some? ==> r.value in doc && (Picks(MainTag, r.value) || Picks(MainRole, r.value))
    ensures (exists k :: 0 <= k < |doc| && Picks(MainTag, doc[k])) ==> r == First(doc, MainTag)
    ensures (forall k :: 0 <= k < |doc| ==> !Picks(MainTag, doc[k])) ==> r == First(doc, MainRole)
  {
    var m := First(doc, MainTag);
    if m.Some? then m else First(doc, MainRole)
  }

  /**
   * The live version of a remembered element: the record with the same id in
   * `doc`; a node that has left the page is no longer rendered, so its
   * `innerText` reads as its `textContent`.
   */
  function Resolve(doc: Document, e: Element): (r: Element)
    ensures r.id == e.id
    ensures (exists k :: 0 <= k < |doc| && doc[k].id == e.id) ==>
              exists k :: 0 <= k < |doc| && doc[k] == r && forall j :: 0 <= j < k ==> doc[j].id != e.id
    ensures (forall k :: 0 <= k < |doc| ==> doc[k].id != e.id) ==> r == e.(innerText := e.textContent)
  {
    if doc == [] then e.(innerText := e.textContent)
    else if doc[0].id == e.id then doc[0]
    else
      var r := Resolve(doc[1..], e);
      assert forall k :: 1 <= k < |doc| ==> doc[k] == doc[1..][k - 1];
      r
  }
}
