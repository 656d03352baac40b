/**
 * The content script's listeners as they run: a `Reader` object holds the
 * module-level variables of content.js as fields, and each listener is a
 * method that updates them step by step. Every method is proved to move the
 * object to the state the matching transition in `Controller` describes, and
 * the public entry points keep `Controller.Consistent`.
 */
module Script {
  import opened Wrappers
  import opened Text
  import opened Dom
  import opened Label
  import opened Navigator
  import opened Sentences
  import opened AltText
  import C = Controller

  class Reader {
    /** `BROWSE_MODE`. */
    var browseMode: bool
    /** `SETTINGS.enabled`, as loaded before the first event. */
    var enabled: bool
    /** `lastElement`: the element as last seen, or None for `null`. */
    var lastElement: Option<Element>
    /** `currentSentences`. */
    var sentences: seq<string>
    /** `sentenceIndex`. */
    var sentenceIndex: nat
    /** The elements covered by the `.sr-highlight` markers now in the page. */
    var highlights: seq<Id>
    /** The text whose `speechTimer` has not fired yet. */
    var pending: Option<string>
    /** Every text handed to the speech engine, oldest first. */
    var utterances: seq<string>

    /** The object's fields as one value. */
    function State(): C.Session
      reads this
    {
      C.Session(browseMode, enabled, lastElement, sentences, sentenceIndex, highlights, pending, utterances)
    }

    ghost predicate Valid()
      reads this
    {
      C.Consistent(State())
    }

    /** Loading the script: Browse mode, nothing selected, nothing said. */
    constructor (enabled: bool)
      ensures State() == C.Initial(enabled) && Valid()
    {
      browseMode := true;
      this.enabled := enabled;
      lastElement := None;
      sentences := [];
      sentenceIndex := 0;
      highlights := [];
      pending := None;
      utterances := [];
      C.InitialConsistent(enabled);
    }

    // ---------------------------------------------------------------- speech

    /** `speak`. */
    method Speak(text: string)
      modifies this
      ensures State() == C.Speak(old(State()), text)
    {
      if !enabled {
        return;
      }
      if text == [] {
        return;
      }
      utterances := utterances + [text];
    }

    /** `speakDebounced`: clear the old timer, start a new one. */
    method SpeakDebounced(text: string)
      modifies this
      ensures State() == C.SpeakDebounced(old(State()), text)
    {
      pending := Some(text);
    }

    /** The debounce timer's callback. */
    method TimerFires()
      requires Valid()
      modifies this
      ensures State() == C.TimerFires(old(State())) && Valid()
    {
      if pending.Some? {
        var text := pending.value;
        pending := None;
        Speak(text);
      }
      C.TimerKeepsConsistent(old(State()));
    }

    /** `highlight`: remove every marker, then add one over `e`. */
    method Highlight(e: Element)
      modifies this
      ensures State() == old(State()).(highlights := [e.id])
    {
      while highlights != []
        invariant State() == old(State()).(highlights := highlights)
        decreases |highlights|
      {
        highlights := highlights[1..];
      }
      highlights := highlights + [e.id];
    }

    // ------------------------------------------------------------- listeners

    /** The Ctrl+Space listener. */
    method OnToggle(ev: C.KeyEvent)
      modifies this
      ensures State() == C.ToggleListener(old(State()), ev)
    {
      if ev.ctrlKey && ev.code == "Space" {
        browseMode := !browseMode;
        Speak(if browseMode then "Browse mode" else "Typing mode");
        return;
      }
    }

    /** The ArrowDown / ArrowUp listener; `prevented` is whether it called `preventDefault`. */
    method OnArrow(doc: Document, ev: C.KeyEvent) returns (prevented: bool)
      modifies this
      ensures State() == C.ArrowListener(old(State()), doc, ev)
      ensures browseMode == old(browseMode)
      ensures prevented == (old(browseMode) && (ev.key == "ArrowDown" || ev.key == "ArrowUp"))
    {
      prevented := false;
      if !browseMode {
        return;
      }
      if ev.key == "ArrowDown" {
        prevented := true;
        ReadNext(doc);
      }
      if ev.key == "ArrowUp" {
        prevented := true;
        ReadPrevious(doc);
      }
    }

    /** The ArrowDown branch: queue the sentence under the cursor and move past it. */
    method ReadNext(doc: Document)
      modifies this
      ensures State() == C.ArrowDown(old(State()), doc)
    {
      if lastElement.None? {
        return;
      }
      StepForward(C.CurrentSentences(doc, lastElement.value));
    }

    /** `currentSentences = …` and the rest of the ArrowDown branch. */
    method StepForward(ss: seq<string>)
      modifies this
      ensures State() == C.SentenceForward(old(State()), ss)
    {
      sentences := ss;
      if sentenceIndex >= |sentences| {
        return;
      }
      SpeakDebounced(sentences[sentenceIndex]);
      sentenceIndex := sentenceIndex + 1;
    }

    /** The ArrowUp branch: step back two (or to 0), queue the sentence there, move past it. */
    method ReadPrevious(doc: Document)
      modifies this
      ensures State() == C.ArrowUp(old(State()), doc)
    {
      if lastElement.None? {
        return;
      }
      StepBack(C.CurrentSentences(doc, lastElement.value));
    }

    /** The ArrowUp branch from the cursor update on, over the sentences of the focus element. */
    method StepBack(ss: seq<string>)
      modifies this
      ensures State() == C.SentenceBack(old(State()), ss)
    {
      if sentenceIndex > 1 {
        sentenceIndex := sentenceIndex - 2;
      } else {
        sentenceIndex := 0;
      }
      sentences := ss;
      SpeakDebounced(if sentenceIndex < |sentences| then sentences[sentenceIndex] else "");
      sentenceIndex := sentenceIndex + 1;
    }

    /** The P, H, L and B listeners. */
    method OnNavigate(doc: Document, ev: C.KeyEvent, k: C.NavKey) returns (prevented: bool)
      modifies this
      ensures State() == C.NavigateListener(old(State()), doc, ev, k)
      ensures browseMode == old(browseMode)
      ensures prevented == (old(browseMode) && LowerAscii(ev.key) == k.Letter())
    {
      prevented := false;
      if !browseMode {
        return;
      }
      if LowerAscii(ev.key) == k.Letter() {
        prevented := true;
        var next := GetNext(doc, k.Target(), C.FocusId(State()));
        if next.None? {
          return;
        }
        sentenceIndex := 0;
        Select(next.value, ExtractLabel(next.value));
      }
    }

    /** The D listener. */
    method OnLandmark(doc: Document, ev: C.KeyEvent) returns (prevented: bool)
      modifies this
      ensures State() == C.LandmarkListener(old(State()), doc, ev)
      ensures browseMode == old(browseMode)
      ensures prevented == (old(browseMode) && LowerAscii(ev.key) == "d")
    {
      prevented := false;
      if !browseMode {
        return;
      }
      if LowerAscii(ev.key) == "d" {
        prevented := true;
        var next := GetNext(doc, Landmark, C.FocusId(State()));
        if next.None? {
          Speak("No more landmarks");
          return;
        }
        Select(next.value, ExtractLabel(next.value));
      }
    }

    /** The M listener. */
    method OnSkipToMain(doc: Document, ev: C.KeyEvent) returns (prevented: bool)
      modifies this
      ensures State() == C.MainListener(old(State()), doc, ev)
      ensures browseMode == old(browseMode)
      ensures prevented == (old(browseMode) && LowerAscii(ev.key) == "m")
    {
      prevented := false;
      if !browseMode {
        return;
      }
      if LowerAscii(ev.key) == "m" {
        prevented := true;
        var main := FindMain(doc);
        if main.None? {
          Speak("Main content not found");
          return;
        }
        lastElement := main;
        Highlight(main.value);
        Speak("Main content");
      }
    }

    /** The G listener, with the wait for the description run straight through. */
    method OnImage(doc: Document, ev: C.KeyEvent) returns (prevented: bool)
      modifies this
      ensures State() == C.ImageListener(old(State()), doc, ev)
      ensures prevented == (old(browseMode) && LowerAscii(ev.key) == "g")
    {
      prevented := false;
      if !browseMode {
        return;
      }
      if LowerAscii(ev.key) == "g" {
        prevented := true;
        var next := GetNext(doc, Image, C.FocusId(State()));
        ImageFound(next);
      }
    }

    /** The G listener once the search is over: say there is none, or show the image found. */
    method ImageFound(next: Option<Element>)
      modifies this
      ensures State() == C.ImageFound(old(State()), next)
    {
      if next.None? {
        Speak("No images found");
        return;
      }
      ShowImage(next.value);
    }

    /** The G listener once an image is found: its alt text, or an announcement and a made-up description. */
    method ShowImage(img: Element)
      modifies this
      ensures State() == C.ShowImage(old(State()), img)
    {
      var alt := img.alt;
      var text: string;
      if alt.None? || Utf16Length(Trim(alt.value)) < 3 {
        Speak("Generating image description");
        text := GenerateAltText(img);
      } else {
        text := alt.value;
      }
      Select(img, text);
    }

    /** `lastElement = e; highlight(e); speakDebounced(text)`: the step every selecting listener ends with. */
    method Select(e: Element, text: string)
      modifies this
      ensures State() == C.SpeakDebounced(C.Focus(old(State()), e), text)
    {
      lastElement := Some(e);
      Highlight(e);
      SpeakDebounced(text);
    }

    /**
     * One keydown event on the document: every listener runs, in the order
     * they were registered. `prevented` is whether any of them called
     * `preventDefault`.
     */
    method OnKeyDown(doc: Document, ev: C.KeyEvent) returns (prevented: bool)
      requires Valid()
      modifies this
      ensures State() == C.KeyDown(old(State()), doc, ev) && Valid()
      ensures prevented == C.Intercepts(C.ToggleListener(old(State()), ev).browseMode, ev)
    {
      OnToggle(ev);
      var arrow := OnArrow(doc, ev);
      var p := OnNavigate(doc, ev, C.P);
      var h := OnNavigate(doc, ev, C.H);
      var l := OnNavigate(doc, ev, C.L);
      var b := OnNavigate(doc, ev, C.B);
      var d := OnLandmark(doc, ev);
      var m := OnSkipToMain(doc, ev);
      var g := OnImage(doc, ev);
      prevented := arrow || p || h || l || b || d || m || g;
      C.KeyDownKeepsConsistent(old(State()), doc, ev);
    }

    /** The click listener; `chain` is the click target followed by its ancestors. */
    method OnClick(chain: seq<Element>)
      requires Valid()
      modifies this
      ensures State() == C.ClickListener(old(State()), chain) && Valid()
    {
      C.ClickKeepsConsistent(State(), chain);
      if !browseMode {
        return;
      }
      var el := Closest(chain);
      if el.None? || !IsValidElement(el) {
        return;
      }
      Select(el.value, ExtractLabel(el.value));
    }
  }
}
