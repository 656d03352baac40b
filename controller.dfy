/**
 * The reader's state machine, stated on values: the module-level state of
 * content.js as one `Session` record, and one transition per event listener.
 * The class in reader.dfy runs the same listeners imperatively and is proved
 * to move between exactly these states; the lemmas here say what the
 * transitions promise.
 */
module Controller {
  import opened Wrappers
  import opened Text
  import opened Dom
  import opened Label
  import opened Navigator
  import opened Sentences
  import opened AltText

  /** What a keydown listener reads from its event. */
  datatype KeyEvent = KeyEvent(key: string, code: string, ctrlKey: bool)

  /** The four navigation keys whose listeners have the same shape. */
  datatype NavKey = P | H | L | B {
    /** The lower-cased `e.key` the listener answers to. */
    function Letter(): string {
      match this
      case P => "p"
      case H => "h"
      case L => "l"
      case B => "b"
    }

    /** The selector group the listener hands to `getNext`. */
    function Target(): Selector {
      match this
      case P => Paragraph
      case H => Heading
      case L => Link
      case B => Button
    }
  }

  /**
   * The state the listeners share: `BROWSE_MODE`, `SETTINGS.enabled`,
   * `lastElement`, `currentSentences`, `sentenceIndex`, the elements that the
   * `.sr-highlight` markers cover, the utterance waiting on the debounce
   * timer, and every utterance handed to the speech engine so far.
   */
  datatype Session = Session(
    browseMode: bool,
    enabled: bool,
    lastElement: Option<Element>,
    sentences: seq<string>,
    sentenceIndex: nat,
    highlights: seq<Id>,
    pending: Option<string>,
    utterances: seq<string>)

  /** The state when the script is loaded: Browse mode, nothing selected, nothing said. */
  function Initial(enabled: bool): Session {
    Session(true, enabled, None, [], 0, [], None, [])
  }

  /** The element `getNext` starts from: `lastElement || document.body`, and the body matches no selector. */
  function FocusId(s: Session): Option<Id> {
    if s.lastElement.Some? then Some(s.lastElement.value.id) else None
  }

  // ------------------------------------------------------------------ speech

  /** `speak`: dropped when speech is disabled or the text is empty. */
  function Speak(s: Session, text: string): Session {
    if !s.enabled || text == [] then s else s.(utterances := s.utterances + [text])
  }

  /** `speakDebounced`: the new text replaces whatever was waiting on the timer. */
  function SpeakDebounced(s: Session, text: string): Session {
    s.(pending := Some(text))
  }

  /** The debounce timer fires: the waiting text, if any, is spoken. */
  function TimerFires(s: Session): Session {
    match s.pending
    case None => s
    case Some(text) => Speak(s.(pending := None), text)
  }

  // ------------------------------------------------------------- selection

  /** `lastElement = el; highlight(el)`: the old markers go, one marker covers `el`. */
  function Focus(s: Session, e: Element): Session {
    s.(lastElement := Some(e), highlights := [e.id])
  }

  /** The Ctrl+Space listener: flip the mode and announce the new one. */
  function ToggleListener(s: Session, ev: KeyEvent): Session {
    if ev.ctrlKey && ev.code == "Space" then
      var browse := !s.browseMode;
      Speak(s.(browseMode := browse), if browse then "Browse mode" else "Typing mode")
    else s
  }

  /** The sentences of the focus element's label as it reads now. */
  function CurrentSentences(doc: Document, last: Element): seq<string> {
    SplitIntoSentences(ExtractLabel(Resolve(doc, last)))
  }

  /** ArrowDown: speak the sentence under the cursor and move past it; at the end, stop. */
  function ArrowDown(s: Session, doc: Document): Session {
    if s.lastElement.None? then s
    else SentenceForward(s, CurrentSentences(doc, s.lastElement.value))
  }

  /** ArrowDown once the sentences of the focus element are known. */
  function SentenceForward(s: Session, sentences: seq<string>): Session {
    var s1 := s.(sentences := sentences);
    if s.sentenceIndex >= |sentences| then s1
    else SpeakDebounced(s1, sentences[s.sentenceIndex]).(sentenceIndex := s.sentenceIndex + 1)
  }

  /**
   * ArrowUp: step the cursor back two (or to 0), speak the sentence there and
   * move past it. There is no bounds check: past the end the listener hands
   * `undefined` to `speakDebounced`, modelled as "", which `speak` drops.
   */
  function ArrowUp(s: Session, doc: Document): Session {
    if s.lastElement.None? then s
    else SentenceBack(s, CurrentSentences(doc, s.lastElement.value))
  }

  /** ArrowUp once the sentences of the focus element are known. */
  function SentenceBack(s: Session, sentences: seq<string>): Session {
    var i := if s.sentenceIndex > 1 then s.sentenceIndex - 2 else 0;
    var s1 := s.(sentences := sentences, sentenceIndex := i);
    SpeakDebounced(s1, if i < |sentences| then sentences[i] else "").(sentenceIndex := i + 1)
  }

  /** The sentence listener. */
  function ArrowListener(s: Session, doc: Document, ev: KeyEvent): Session {
    if !s.browseMode then s
    else if ev.key == "ArrowDown" then ArrowDown(s, doc)
    else if ev.key == "ArrowUp" then ArrowUp(s, doc)
    else s
  }

  /** The P, H, L and B listeners: move to the next match, reset the sentence cursor, read the label. */
  function NavigateListener(s: Session, doc: Document, ev: KeyEvent, k: NavKey): Session {
    if !s.browseMode || LowerAscii(ev.key) != k.Letter() then s
    else
      match GetNext(doc, k.Target(), FocusId(s))
      case None => s
      case Some(next) => SpeakDebounced(Focus(s, next).(sentenceIndex := 0), ExtractLabel(next))
  }

  /** The D listener: like P, but it says when there is no landmark and keeps the sentence cursor. */
  function LandmarkListener(s: Session, doc: Document, ev: KeyEvent): Session {
    if !s.browseMode || LowerAscii(ev.key) != "d" then s
    else
      match GetNext(doc, Landmark, FocusId(s))
      case None => Speak(s, "No more landmarks")
      case Some(next) => SpeakDebounced(Focus(s, next), ExtractLabel(next))
  }

  /** The M listener: jump to the main region, without checking that it is a valid element. */
  function MainListener(s: Session, doc: Document, ev: KeyEvent): Session {
    if !s.browseMode || LowerAscii(ev.key) != "m" then s
    else
      match FindMain(doc)
      case None => Speak(s, "Main content not found")
      case Some(main) => Speak(Focus(s, main), "Main content")
  }

  /**
   * `!alt || alt.trim().length < 3` is false: the alt attribute is worth
   * reading out. `length` counts UTF-16 code units.
   */
  predicate UsableAlt(e: Element) {
    e.alt.Some? && Utf16Length(Trim(e.alt.value)) >= 3
  }

  /** The G listener: move to the next image and read its alt text, or a made-up description. */
  function ImageListener(s: Session, doc: Document, ev: KeyEvent): Session {
    if !s.browseMode || LowerAscii(ev.key) != "g" then s
    else ImageFound(s, GetNext(doc, Image, FocusId(s)))
  }

  /** The G listener once the search for the next image is over. */
  function ImageFound(s: Session, next: Option<Element>): Session {
    match next
    case None => Speak(s, "No images found")
    case Some(img) => ShowImage(s, img)
  }

  /**
   * The rest of the G listener once an image is found: read its alt
   * attribute when that is usable, else announce the wait and queue the
   * made-up description.
   */
  function ShowImage(s: Session, next: Element): Session {
    if UsableAlt(next) then SpeakDebounced(Focus(s, next), next.alt.value)
    else SpeakDebounced(Focus(Speak(s, "Generating image description"), next), GenerateAltText(next))
  }

  /** The letter-key listeners, in the order they were registered. */
  function LetterListeners(s: Session, doc: Document, ev: KeyEvent): Session {
    var s3 := NavigateListener(s, doc, ev, P);
    var s4 := NavigateListener(s3, doc, ev, H);
    var s5 := NavigateListener(s4, doc, ev, L);
    var s6 := NavigateListener(s5, doc, ev, B);
    var s7 := LandmarkListener(s6, doc, ev);
    var s8 := MainListener(s7, doc, ev);
    ImageListener(s8, doc, ev)
  }

  /** One keydown event: every listener runs, in the order they were registered. */
  function KeyDown(s: Session, doc: Document, ev: KeyEvent): Session {
    LetterListeners(ArrowListener(ToggleListener(s, ev), doc, ev), doc, ev)
  }

  /** The click listener; `chain` is the target followed by its ancestors. */
  function ClickListener(s: Session, chain: seq<Element>): Session {
    if !s.browseMode then s
    else
      match Closest(chain)
      case None => s
      case Some(el) =>
        if !IsValidElement(Some(el)) then s
        else SpeakDebounced(Focus(s, el), ExtractLabel(el))
  }

  /** The letters some listener answers to (after lower-casing `e.key`). */
  predicate IsCommandLetter(key: string) {
    key == "p" || key == "h" || key == "l" || key == "b" || key == "d" || key == "m" || key == "g"
  }

  /** A listener calls `preventDefault` exactly when it is in Browse mode and the key is one it handles. */
  predicate Intercepts(browseMode: bool, ev: KeyEvent) {
    browseMode && (ev.key == "ArrowDown" || ev.key == "ArrowUp" || IsCommandLetter(LowerAscii(ev.key)))
  }

  // ------------------------------------------------------------ invariant

  /**
   * What every reachable state satisfies: there is a marker exactly when there
   * is a focus element, and then one marker, on it; the cached sentences are
   * clean sentences; nothing empty was ever spoken.
   */
  ghost predicate Consistent(s: Session) {
    s.highlights == (if s.lastElement.Some? then [s.lastElement.value.id] else []) &&
    (forall k :: 0 <= k < |s.sentences| ==> Spoken(s.sentences[k])) &&
    (forall k :: 0 <= k < |s.utterances| ==> s.utterances[k] != [])
  }

  lemma InitialConsistent(enabled: bool)
    ensures Consistent(Initial(enabled))
  {
  }

  /**
   * What every listener but the toggle keeps: the mode, the setting, the
   * invariant, and silence while speech is disabled.
   */
  ghost predicate Keeps(s: Session, r: Session) {
    r.browseMode == s.browseMode && r.enabled == s.enabled &&
    (Consistent(s) ==> Consistent(r)) &&
    (!s.enabled ==> r.utterances == s.utterances)
  }

  lemma ArrowKeeps(s: Session, doc: Document, ev: KeyEvent)
    ensures Keeps(s, ArrowListener(s, doc, ev))
  {
    if s.browseMode && s.lastElement.Some? && (ev.key == "ArrowDown" || ev.key == "ArrowUp") {
      var ss := CurrentSentences(doc, s.lastElement.value);
      SentencesAreSpoken(ExtractLabel(Resolve(doc, s.lastElement.value)));
      var r := ArrowListener(s, doc, ev);
      assert r.sentences == ss;
      assert r.(sentences := s.sentences, sentenceIndex := s.sentenceIndex, pending := s.pending) == s;
    }
  }

  lemma NavigateKeeps(s: Session, doc: Document, ev: KeyEvent, k: NavKey)
    ensures Keeps(s, NavigateListener(s, doc, ev, k))
  {
  }

  lemma LandmarkKeeps(s: Session, doc: Document, ev: KeyEvent)
    ensures Keeps(s, LandmarkListener(s, doc, ev))
  {
  }

  lemma MainKeeps(s: Session, doc: Document, ev: KeyEvent)
    ensures Keeps(s, MainListener(s, doc, ev))
  {
  }

  lemma ImageKeeps(s: Session, doc: Document, ev: KeyEvent)
    ensures Keeps(s, ImageListener(s, doc, ev))
  {
    if s.browseMode && LowerAscii(ev.key) == "g" {
      var next := GetNext(doc, Image, FocusId(s));
      if next.Some? {
        assert ImageListener(s, doc, ev) == ShowImage(s, next.value);
        ShowImageKeeps(s, next.value);
      }
    }
  }

  lemma ShowImageKeeps(s: Session, e: Element)
    ensures Keeps(s, ShowImage(s, e))
  {
    if !UsableAlt(e) {
      var s1 := Speak(s, "Generating image description");
      assert Keeps(s, s1);
      FocusKeeps(s1, e, GenerateAltText(e));
    }
  }

  /** Selecting an element and queueing a text keeps what listeners keep. */
  lemma FocusKeeps(s: Session, e: Element, text: string)
    ensures Keeps(s, SpeakDebounced(Focus(s, e), text))
  {
  }

  /** The letter listeners together keep what each of them keeps. */
  lemma LettersKeep(s: Session, doc: Document, ev: KeyEvent)
    ensures Keeps(s, LetterListeners(s, doc, ev))
  {
    var s3 := NavigateListener(s, doc, ev, P);
    NavigateKeeps(s, doc, ev, P);
    var s4 := NavigateListener(s3, doc, ev, H);
    NavigateKeeps(s3, doc, ev, H);
    var s5 := NavigateListener(s4, doc, ev, L);
    NavigateKeeps(s4, doc, ev, L);
    var s6 := NavigateListener(s5, doc, ev, B);
    NavigateKeeps(s5, doc, ev, B);
    var s7 := LandmarkListener(s6, doc, ev);
    LandmarkKeeps(s6, doc, ev);
    var s8 := MainListener(s7, doc, ev);
    MainKeeps(s7, doc, ev);
    ImageKeeps(s8, doc, ev);
  }

  /** A listener whose letter was not pressed returns the state untouched. */
  lemma NavigateIgnores(s: Session, doc: Document, ev: KeyEvent, k: NavKey)
    requires !s.browseMode || LowerAscii(ev.key) != k.Letter()
    ensures NavigateListener(s, doc, ev, k) == s
  {
  }

  /** D, M and G leave the state untouched unless their own letter was pressed. */
  lemma OthersIgnore(s: Session, doc: Document, ev: KeyEvent)
    requires !s.browseMode || (LowerAscii(ev.key) != "d" && LowerAscii(ev.key) != "m" && LowerAscii(ev.key) != "g")
    ensures LandmarkListener(s, doc, ev) == s
    ensures MainListener(s, doc, ev) == s
    ensures ImageListener(s, doc, ev) == s
  {
  }

  /** A key that lower-cases to no command letter passes every letter listener untouched. */
  lemma LettersIgnore(s: Session, doc: Document, ev: KeyEvent)
    requires !s.browseMode || !IsCommandLetter(LowerAscii(ev.key))
    ensures LetterListeners(s, doc, ev) == s
  {
    NavigateIgnores(s, doc, ev, P);
    NavigateIgnores(s, doc, ev, H);
    NavigateIgnores(s, doc, ev, L);
    NavigateIgnores(s, doc, ev, B);
    OthersIgnore(s, doc, ev);
  }

  /** Every keydown event keeps the invariant. */
  lemma KeyDownKeepsConsistent(s: Session, doc: Document, ev: KeyEvent)
    requires Consistent(s)
    ensures Consistent(KeyDown(s, doc, ev))
  {
    var s1 := ToggleListener(s, ev);
    ToggleKeepsConsistent(s, ev);
    var s2 := ArrowListener(s1, doc, ev);
    ArrowKeeps(s1, doc, ev);
    assert Consistent(s2);
    LettersKeep(s2, doc, ev);
    assert KeyDown(s, doc, ev) == LetterListeners(s2, doc, ev);
  }

  /** The toggle keeps the invariant: it changes only the mode and what was said, and says a non-empty name. */
  lemma ToggleKeepsConsistent(s: Session, ev: KeyEvent)
    requires Consistent(s)
    ensures Consistent(ToggleListener(s, ev))
  {
  }

  /** A click keeps the invariant. */
  lemma ClickKeepsConsistent(s: Session, chain: seq<Element>)
    requires Consistent(s)
    ensures Consistent(ClickListener(s, chain))
  {
  }

  /** The timer keeps the invariant. */
  lemma TimerKeepsConsistent(s: Session)
    requires Consistent(s)
    ensures Consistent(TimerFires(s))
  {
  }

  // ------------------------------------------------------------ mode toggle

  /** The toggle event: Ctrl held, the space bar pressed. */
  const CtrlSpace := KeyEvent(" ", "Space", true)

  /**
   * Ctrl+Space flips the mode whatever it was, announces the new mode by
   * name, and changes nothing else.
   */
  lemma ToggleFlips(s: Session, doc: Document)
    ensures var r := KeyDown(s, doc, CtrlSpace);
            r.browseMode == !s.browseMode &&
            r.utterances == s.utterances + (if s.enabled then [if r.browseMode then "Browse mode" else "Typing mode"] else []) &&
            r.(browseMode := s.browseMode, utterances := s.utterances) == s
  {
    var s1 := ToggleListener(s, CtrlSpace);
    assert LowerAscii(" ") == " ";
    LettersIgnore(s1, doc, CtrlSpace);
  }

  /** Toggling twice restores the mode, and both modes were announced, in order. */
  lemma ToggleTwiceRestores(s: Session, doc: Document)
    ensures var r := KeyDown(KeyDown(s, doc, CtrlSpace), doc, CtrlSpace);
            r.browseMode == s.browseMode &&
            r.utterances == s.utterances +
              (if !s.enabled then [] else if s.browseMode then ["Typing mode", "Browse mode"] else ["Browse mode", "Typing mode"]) &&
            r.(utterances := s.utterances) == s
  {
    ToggleFlips(s, doc);
    ToggleFlips(KeyDown(s, doc, CtrlSpace), doc);
  }

  /**
   * In Typing mode every listener but the toggle returns at once: no key or
   * click changes the state, and none is intercepted.
   */
  lemma TypingModeIsInert(s: Session, doc: Document, ev: KeyEvent, chain: seq<Element>)
    requires !s.browseMode
    requires !(ev.ctrlKey && ev.code == "Space")
    ensures KeyDown(s, doc, ev) == s
    ensures ClickListener(s, chain) == s
    ensures !Intercepts(s.browseMode, ev)
  {
    LettersIgnore(s, doc, ev);
  }

  /** Only the toggle changes the mode. */
  lemma OnlyToggleChangesMode(s: Session, doc: Document, ev: KeyEvent, chain: seq<Element>)
    ensures KeyDown(s, doc, ev).browseMode == ToggleListener(s, ev).browseMode
    ensures ClickListener(s, chain).browseMode == s.browseMode
    ensures TimerFires(s).browseMode == s.browseMode
  {
    var s1 := ToggleListener(s, ev);
    ArrowKeeps(s1, doc, ev);
    LettersKeep(ArrowListener(s1, doc, ev), doc, ev);
  }

  // -------------------------------------------------------------- navigation

  /** A key event in Browse mode that is not the toggle and carries `key`. */
  predicate PlainKey(s: Session, ev: KeyEvent) {
    s.browseMode && !(ev.ctrlKey && ev.code == "Space")
  }

  /** A letter key runs its own listener and no other. */
  lemma LetterRunsOneListener(s: Session, doc: Document, ev: KeyEvent, k: NavKey)
    requires PlainKey(s, ev) && LowerAscii(ev.key) == k.Letter()
    ensures KeyDown(s, doc, ev) == NavigateListener(s, doc, ev, k)
  {
    LowerIsNotArrow(ev.key);
    KeyDownIsLetters(s, doc, ev);
    LettersRunOne(s, doc, ev, k);
  }

  /** In Browse mode a key that is neither the toggle nor an arrow reaches the letter listeners untouched. */
  lemma KeyDownIsLetters(s: Session, doc: Document, ev: KeyEvent)
    requires PlainKey(s, ev) && ev.key != "ArrowDown" && ev.key != "ArrowUp"
    ensures KeyDown(s, doc, ev) == LetterListeners(s, doc, ev)
  {
    assert ToggleListener(s, ev) == s;
    assert ArrowListener(s, doc, ev) == s;
  }

  /** Of the letter listeners only the one for the pressed letter acts. */
  lemma LettersRunOne(s: Session, doc: Document, ev: KeyEvent, k: NavKey)
    requires s.browseMode && LowerAscii(ev.key) == k.Letter()
    ensures LetterListeners(s, doc, ev) == NavigateListener(s, doc, ev, k)
  {
    var key := LowerAscii(ev.key);
    var r := NavigateListener(s, doc, ev, k);
    NavigateKeeps(s, doc, ev, k);
    OtherLetters(key, k);
    var s3 := NavigateListener(s, doc, ev, P);
    if k != P { NavigateIgnores(s, doc, ev, P); }
    assert s3 == (if k == P then r else s);
    var s4 := NavigateListener(s3, doc, ev, H);
    if k != H { NavigateIgnores(s3, doc, ev, H); }
    assert s4 == (if k == P || k == H then r else s);
    var s5 := NavigateListener(s4, doc, ev, L);
    if k != L { NavigateIgnores(s4, doc, ev, L); }
    assert s5 == (if k != B then r else s);
    var s6 := NavigateListener(s5, doc, ev, B);
    if k != B { NavigateIgnores(s5, doc, ev, B); }
    assert s6 == r;
    OthersIgnore(r, doc, ev);
  }

  /** The letter of one navigation key is neither another's letter nor d, m or g. */
  lemma OtherLetters(key: string, k: NavKey)
    requires key == k.Letter()
    ensures forall j: NavKey :: j != k ==> key != j.Letter()
    ensures key != "d" && key != "m" && key != "g"
  {
    assert |key| == 1;
    forall j: NavKey | j != k
      ensures key != j.Letter()
    {
      assert key[0] != j.Letter()[0];
    }
  }

  /** A key whose lower-cased name is a single letter is not an arrow key. */
  lemma LowerIsNotArrow(key: string)
    requires |LowerAscii(key)| == 1
    ensures key != "ArrowDown" && key != "ArrowUp"
  {
  }

  /**
   * P, H, L and B: when no eligible element matches, nothing changes and
   * nothing is said. Otherwise the focus moves to the element `getNext`
   * picks, which is an eligible element of the page; the one marker covers
   * it; the sentence cursor goes back to 0; its label waits on the timer;
   * nothing else changes.
   */
  lemma NavigateOutcome(s: Session, doc: Document, ev: KeyEvent, k: NavKey)
    requires s.browseMode && LowerAscii(ev.key) == k.Letter()
    ensures var r := NavigateListener(s, doc, ev, k);
            var next := GetNext(doc, k.Target(), FocusId(s));
            (next.None? <==> forall e :: e in doc ==> !Eligible(k.Target(), e)) &&
            (next.None? ==> r == s) &&
            (next.Some? ==>
              r.lastElement == next && next.value in doc && Eligible(k.Target(), next.value) &&
              r.highlights == [next.value.id] &&
              r.sentenceIndex == 0 &&
              r.pending == Some(ExtractLabel(next.value)) &&
              r.(lastElement := s.lastElement, highlights := s.highlights, sentenceIndex := s.sentenceIndex, pending := s.pending) == s)
  {
  }

  /**
   * D: with no eligible landmark the focus stays and "No more landmarks" is
   * spoken at once; otherwise as for P, except that the sentence cursor is
   * left where it was.
   */
  lemma LandmarkOutcome(s: Session, doc: Document, ev: KeyEvent)
    requires s.browseMode && LowerAscii(ev.key) == "d"
    ensures var r := LandmarkListener(s, doc, ev);
            var next := GetNext(doc, Landmark, FocusId(s));
            (next.None? ==> r == Speak(s, "No more landmarks") && r.lastElement == s.lastElement) &&
            (next.Some? ==>
              r.lastElement == next && next.value in doc && Eligible(Landmark, next.value) &&
              r.highlights == [next.value.id] &&
              r.sentenceIndex == s.sentenceIndex &&
              r.pending == Some(ExtractLabel(next.value)) &&
              r.(lastElement := s.lastElement, highlights := s.highlights, pending := s.pending) == s)
  {
  }

  /**
   * M: with neither a `main` element nor an element with role "main" the
   * focus stays and "Main content not found" is spoken; otherwise the focus
   * moves to the first `main` element (else the first role="main" element),
   * valid or not, and "Main content" is spoken at once, leaving the sentence
   * cursor and the waiting utterance alone.
   */
  lemma SkipToMainOutcome(s: Session, doc: Document, ev: KeyEvent)
    requires s.browseMode && LowerAscii(ev.key) == "m"
    ensures var r := MainListener(s, doc, ev);
            var main := FindMain(doc);
            (main.None? ==> r == Speak(s, "Main content not found") && r.lastElement == s.lastElement) &&
            (main == if exists k :: 0 <= k < |doc| && Picks(MainTag, doc[k])
                      then First(doc, MainTag) else First(doc, MainRole)) &&
            (main.Some? ==>
              r.lastElement == main && main.value in doc &&
              (main.value.tag == "main" || main.value.role == Some("main")) &&
              r.highlights == [main.value.id] &&
              r.sentenceIndex == s.sentenceIndex && r.pending == s.pending &&
              r.utterances == s.utterances + (if s.enabled then ["Main content"] else []) &&
              r.(lastElement := s.lastElement, highlights := s.highlights, utterances := s.utterances) == s)
  {
  }

  /**
   * G: with no eligible image "No images found" is spoken and the focus
   * stays; otherwise the image found is a valid `img` element and the
   * listener goes on to show it.
   */
  lemma ImageOutcome(s: Session, doc: Document, ev: KeyEvent)
    requires s.browseMode && LowerAscii(ev.key) == "g"
    ensures var r := ImageListener(s, doc, ev);
            var next := GetNext(doc, Image, FocusId(s));
            (next.None? ==> r == Speak(s, "No images found") && r.lastElement == s.lastElement) &&
            (next.Some? ==>
              next.value.tag == "img" && IsValidElement(next) &&
              r == ShowImage(s, next.value))
  {
    var next := GetNext(doc, Image, FocusId(s));
    if next.Some? {
      assert Eligible(Image, next.value);
    }
  }

  /**
   * Once an image is found the focus moves to it; an alt attribute with at
   * least three UTF-16 code units after trimming is read as it stands, and failing
   * that "Generating image description" is spoken at once and the made-up
   * description waits on the timer. The sentence cursor is not reset.
   */
  lemma ShowImageOutcome(s: Session, e: Element)
    ensures var r := ShowImage(s, e);
            r.lastElement == Some(e) &&
            r.highlights == [e.id] &&
            r.sentenceIndex == s.sentenceIndex &&
            (UsableAlt(e) ==> r.pending == e.alt && r.utterances == s.utterances) &&
            (!UsableAlt(e) ==>
              r.pending == Some(GenerateAltText(e)) &&
              r.utterances == s.utterances + (if s.enabled then ["Generating image description"] else [])) &&
            r.(lastElement := s.lastElement, highlights := s.highlights, pending := s.pending, utterances := s.utterances) == s
  {
  }

  /**
   * A click selects the nearest paragraph, heading, link or button around
   * the target when it is a valid element, and queues its label; the
   * sentence cursor is not reset. Otherwise nothing changes.
   */
  lemma ClickOutcome(s: Session, chain: seq<Element>)
    requires s.browseMode
    ensures var r := ClickListener(s, chain);
            var el := Closest(chain);
            (el.Some? && IsValidElement(el) ==>
              r.lastElement == el && el.value in chain && Picks(ClickTarget, el.value) &&
              r.highlights == [el.value.id] &&
              r.pending == Some(ExtractLabel(el.value)) &&
              r.(lastElement := s.lastElement, highlights := s.highlights, pending := s.pending) == s) &&
            (!(el.Some? && IsValidElement(el)) ==> r == s)
  {
  }

  // ----------------------------------------------------------- sentences

  const Down := KeyEvent("ArrowDown", "ArrowDown", false)
  const Up := KeyEvent("ArrowUp", "ArrowUp", false)

  /** A key name longer than one character is no command letter, whatever its case. */
  lemma LongKeyIsNoLetter(key: string)
    requires |key| > 1
    ensures !IsCommandLetter(LowerAscii(key)) && LowerAscii(key) != " "
  {
    assert |LowerAscii(key)| > 1;
  }

  /** Lower-casing an arrow key's name gives no command letter. */
  lemma ArrowIsNoLetter()
    ensures !IsCommandLetter(LowerAscii(Down.key)) && LowerAscii(Down.key) != " "
    ensures !IsCommandLetter(LowerAscii(Up.key)) && LowerAscii(Up.key) != " "
  {
    LongKeyIsNoLetter(Down.key);
    LongKeyIsNoLetter(Up.key);
  }

  /** With no focus element the arrow keys change nothing. */
  lemma ArrowsNeedFocus(s: Session, doc: Document)
    requires s.lastElement.None?
    ensures KeyDown(s, doc, Down) == s && KeyDown(s, doc, Up) == s
  {
    ArrowIsNoLetter();
    LettersIgnore(s, doc, Down);
    LettersIgnore(s, doc, Up);
  }

  /** In Browse mode the arrow keys run the sentence listener's two branches and nothing else. */
  lemma ArrowKeysRoute(s: Session, doc: Document)
    requires s.browseMode
    ensures KeyDown(s, doc, Down) == ArrowDown(s, doc)
    ensures KeyDown(s, doc, Up) == ArrowUp(s, doc)
  {
    ArrowIsNoLetter();
    LettersIgnore(ArrowListener(s, doc, Down), doc, Down);
    LettersIgnore(ArrowListener(s, doc, Up), doc, Up);
  }

  /**
   * ArrowDown with a focus element: the sentences are recomputed from the
   * label; below the end the sentence under the cursor waits on the timer and
   * the cursor moves on by one; at or past the end nothing else changes.
   */
  lemma ArrowDownStep(s: Session, doc: Document)
    requires s.lastElement.Some?
    ensures var r := ArrowDown(s, doc);
            var ss := CurrentSentences(doc, s.lastElement.value);
            r.sentences == ss &&
            (s.sentenceIndex < |ss| ==> r == s.(sentences := ss, sentenceIndex := s.sentenceIndex + 1, pending := Some(ss[s.sentenceIndex]))) &&
            (s.sentenceIndex >= |ss| ==> r == s.(sentences := ss))
  {
    ForwardStep(s, CurrentSentences(doc, s.lastElement.value));
  }

  /** ArrowDown over known sentences: below the end the cursor's sentence waits and the cursor moves on. */
  lemma ForwardStep(s: Session, ss: seq<string>)
    ensures var r := SentenceForward(s, ss);
            r.sentences == ss &&
            (s.sentenceIndex < |ss| ==> r == s.(sentences := ss, sentenceIndex := s.sentenceIndex + 1, pending := Some(ss[s.sentenceIndex]))) &&
            (s.sentenceIndex >= |ss| ==> r == s.(sentences := ss))
  {
  }

  /**
   * ArrowUp with a focus element: the cursor goes back two, or to 0 from 0
   * or 1, the sentence there waits on the timer (an empty text past the end,
   * which is never spoken), and the cursor then moves on by one.
   */
  lemma ArrowUpStep(s: Session, doc: Document)
    requires s.lastElement.Some?
    ensures var r := ArrowUp(s, doc);
            var ss := CurrentSentences(doc, s.lastElement.value);
            var i := if s.sentenceIndex > 1 then s.sentenceIndex - 2 else 0;
            r == s.(sentences := ss, sentenceIndex := i + 1, pending := Some(if i < |ss| then ss[i] else "")) &&
            r.sentenceIndex == (if s.sentenceIndex > 1 then s.sentenceIndex - 1 else 1)
  {
    BackStep(s, CurrentSentences(doc, s.lastElement.value));
  }

  /** ArrowUp over known sentences: back two (or to 0), that sentence waits, the cursor moves on by one. */
  lemma BackStep(s: Session, ss: seq<string>)
    ensures var r := SentenceBack(s, ss);
            var i := if s.sentenceIndex > 1 then s.sentenceIndex - 2 else 0;
            r == s.(sentences := ss, sentenceIndex := i + 1, pending := Some(if i < |ss| then ss[i] else "")) &&
            r.sentenceIndex == (if s.sentenceIndex > 1 then s.sentenceIndex - 1 else 1)
  {
  }

  /** ArrowDown below the end, then the timer: sentence i is spoken and the cursor is at i + 1. */
  lemma DownAndSpeak(s: Session, doc: Document)
    requires s.enabled && s.lastElement.Some?
    requires s.sentenceIndex < |CurrentSentences(doc, s.lastElement.value)|
    ensures var ss := CurrentSentences(doc, s.lastElement.value);
            TimerFires(ArrowDown(s, doc)) ==
              s.(sentences := ss, sentenceIndex := s.sentenceIndex + 1, pending := None,
                 utterances := s.utterances + [ss[s.sentenceIndex]])
  {
    var ss := CurrentSentences(doc, s.lastElement.value);
    ArrowDownStep(s, doc);
    assert ss[s.sentenceIndex] != [] by {
      SentencesAreSpoken(ExtractLabel(Resolve(doc, s.lastElement.value)));
    }
    TimerSpeaks(ArrowDown(s, doc), ss[s.sentenceIndex]);
  }

  /** The timer speaks the waiting text, when speech is on and the text is not empty, and clears it. */
  lemma TimerSpeaks(s: Session, text: string)
    requires s.enabled && text != [] && s.pending == Some(text)
    ensures TimerFires(s) == s.(pending := None, utterances := s.utterances + [text])
  {
  }

  /** ArrowUp from index 1, then the timer: sentence 0 is spoken again and the cursor is back at 1. */
  lemma UpFromOneAndSpeak(s: Session, doc: Document)
    requires s.enabled && s.lastElement.Some? && s.sentenceIndex == 1
    requires |CurrentSentences(doc, s.lastElement.value)| >= 1
    ensures var ss := CurrentSentences(doc, s.lastElement.value);
            TimerFires(ArrowUp(s, doc)) ==
              s.(sentences := ss, pending := None, utterances := s.utterances + [ss[0]])
  {
    var ss := CurrentSentences(doc, s.lastElement.value);
    ArrowUpStep(s, doc);
    assert ss[0] != [] by {
      SentencesAreSpoken(ExtractLabel(Resolve(doc, s.lastElement.value)));
    }
    TimerSpeaks(ArrowUp(s, doc), ss[0]);
  }

  /**
   * Down, Up, Down from the start of a label with at least two sentences,
   * the timer firing after each key: the first sentence is spoken, then the
   * first again (Up from index 1 goes back to 0), then the second; the
   * cursor ends at 2.
   */
  lemma SentenceWalk(s: Session, doc: Document)
    requires s.enabled && s.lastElement.Some? && s.sentenceIndex == 0
    requires |CurrentSentences(doc, s.lastElement.value)| >= 2
    ensures var ss := CurrentSentences(doc, s.lastElement.value);
            var r := TimerFires(ArrowDown(TimerFires(ArrowUp(TimerFires(ArrowDown(s, doc)), doc)), doc));
            r.sentenceIndex == 2 &&
            r.utterances == s.utterances + [ss[0], ss[0], ss[1]] &&
            r.pending.None?
  {
    var ss := CurrentSentences(doc, s.lastElement.value);
    var s1 := TimerFires(ArrowDown(s, doc));
    DownAndSpeakFields(s, doc);
    var s2 := TimerFires(ArrowUp(s1, doc));
    UpFromOneFields(s1, doc);
    DownAndSpeakFields(s2, doc);
    var s3 := TimerFires(ArrowDown(s2, doc));
    assert s3.utterances == ((s.utterances + [ss[0]]) + [ss[0]]) + [ss[1]];
    AppendThree(s.utterances, ss[0], ss[0], ss[1]);
  }

  /** Three appends of one element each are one append of the three. */
  lemma AppendThree<T>(u: seq<T>, a: T, b: T, c: T)
    ensures ((u + [a]) + [b]) + [c] == u + [a, b, c]
  {
  }

  /** The fields of `DownAndSpeak`'s result that a walk over several keys needs. */
  lemma DownAndSpeakFields(s: Session, doc: Document)
    requires s.enabled && s.lastElement.Some?
    requires s.sentenceIndex < |CurrentSentences(doc, s.lastElement.value)|
    ensures var r := TimerFires(ArrowDown(s, doc));
            r.enabled && r.lastElement == s.lastElement && r.pending.None? &&
            r.sentenceIndex == s.sentenceIndex + 1 &&
            r.utterances == s.utterances + [CurrentSentences(doc, s.lastElement.value)[s.sentenceIndex]]
  {
    DownAndSpeak(s, doc);
  }

  /** The fields of `UpFromOneAndSpeak`'s result that a walk over several keys needs. */
  lemma UpFromOneFields(s: Session, doc: Document)
    requires s.enabled && s.lastElement.Some? && s.sentenceIndex == 1
    requires |CurrentSentences(doc, s.lastElement.value)| >= 1
    ensures var r := TimerFires(ArrowUp(s, doc));
            r.enabled && r.lastElement == s.lastElement && r.pending.None? &&
            r.sentenceIndex == 1 &&
            r.utterances == s.utterances + [CurrentSentences(doc, s.lastElement.value)[0]]
  {
    UpFromOneAndSpeak(s, doc);
  }

  // ---------------------------------------------------------------- debounce

  /**
   * Three requests before the timer fires give one utterance, the last
   * text; earlier requests are never spoken.
   */
  lemma DebounceKeepsLast(s: Session, a: string, b: string, c: string)
    requires s.enabled && c != []
    ensures TimerFires(SpeakDebounced(SpeakDebounced(SpeakDebounced(s, a), b), c)).utterances == s.utterances + [c]
  {
  }

  /** With speech disabled nothing is ever spoken, whatever happens. */
  lemma DisabledIsSilent(s: Session, doc: Document, ev: KeyEvent, chain: seq<Element>)
    requires !s.enabled
    ensures KeyDown(s, doc, ev).utterances == s.utterances
    ensures ClickListener(s, chain).utterances == s.utterances
    ensures TimerFires(s).utterances == s.utterances
  {
    var s1 := ToggleListener(s, ev);
    ArrowKeeps(s1, doc, ev);
    LettersKeep(ArrowListener(s1, doc, ev), doc, ev);
  }
}
